# Models of two RISC-V golden models

This project models parts of Dromajo and Spike, the instruction set simulators against which the
core is compared, and proves what they compute.

* **Soft floating point** (`Powers` to `IntConversion`). Addition, multiplication, fused multiply-add,
  division, square root and the conversions, for every format with at least four rounding bits, so that
  the results cover 32, 64 and 128 bits at once. The reference is `Floats`: the numbers of a format,
  rounding in the five modes, and the flags, as IEEE 754-2008 states them; it mentions nothing of the
  code. The link is `Jamming`: a word with a sticky bit stands for every real number on the same side
  of all multiples of some power of two, and each operation shows that its word stands for the exact
  result, through cancellation and renormalization. `Totality` shows that the reference has exactly one
  answer, and `RealRoots` does so for square roots, which it tells by how they compare. A `#ifdef` on
  wide host integers selects between two forms of the word routines; the parameter `ulong` of the
  operations is that choice.
* **The live cache** (`Recency`, `SetAssociative`, `MergeSorts`, `LiveCaches`). What the cache holds is
  told from the run of accesses alone: when a tag was last used and how many others since.
* **MMU, TLBs and dirty pages** (`PageWalk`, `AddressBits`, `DirtyBits`, `Tlb`, `Machine`, `StaleEntries`), for
  any number of harts. The ghost field `stale` of a hart tells whether something happened that the flush rules do not
  cover; every step says exactly how it changes, and `StaleEntries` shows which of these conditions are exact.
* **The boot ROM of a snapshot** (`BootInterp`, `CsrBits`, `BootRom`, `BootBuilder`): encoders, the
  interpreter cases that run the ROM, and the generator. `CsrBits` says bit by bit what CSRs keep.
* **The debug module** (`DebugModule`): debugger and harts take turns, one access at a time.
* **Flattened devicetrees** (`FdtFormat`, `FdtWriter`), against a reference parser.
* **The cache simulator** (`CacheSim`) and **traps** (`Traps`).

`Basics` and `Bits` hold the few definitions that several of these share.

`dafny verify dfyconfig.toml` checks the whole project.

Where code and comments disagree, the model follows the code: the boot ROM starts at offset 0, not at
0x40; `sqrtrem_u` takes radicands below 2^(2*F_SIZE-2); `mulh` and `mulhsu` are not the signed products
on all operands, which is stated as an equivalence. The walk accepts some entries the privileged
architecture refuses, traps within M-mode and moved memory ranges leave stale TLB entries, the boot ROM
mixes halves of floating-point and integer registers, and selecting another hart before a command is
over breaks the debug protocol: each of these has its exact condition and an input or run that shows it.

## Model

| member | source | states |
|---|---|---|
| `Jamming.RshiftRnd` | sub/riscv_core/corev_apu/tb/dromajo/src/softfp_template.h:109-121 | for every shift count, also beyond the word, the shift keeps the quotient and ors into its last bit whether anything was lost |
| `Jamming.AgreesJamShift` | sub/riscv_core/corev_apu/tb/dromajo/src/softfp_template.h:109-121 | what was lost cannot be seen by any even multiple: the shifted word and the exact value lie on the same side of all of them |
| `Rounding.RoundOffCorrect` | sub/riscv_core/corev_apu/tb/dromajo/src/softfp_template.h:130-171 | adding the mode's addend and cutting, with the correction at a tie, takes the neighbour that the exact value takes, for every value the word can stand for |
| `Rounding.RoundPackSf` | sub/riscv_core/corev_apu/tb/dromajo/src/softfp_template.h:124-191 | rounding a jammed mantissa is rounding every exact value it stands for: right neighbour in each mode, largest number or infinity on overflow, inexact if and only if the value changes, underflow if and only if inexact and tiny after rounding |
| `Rounding.PackRounded` | sub/riscv_core/corev_apu/tb/dromajo/src/softfp_template.h:172-190 | carry, subnormal and overflow handling pack the rounded code, clamped as section 7.4 of IEEE 754-2008 asks |
| `Rounding.NormalizeSf` | sub/riscv_core/corev_apu/tb/dromajo/src/softfp_template.h:194-203 | normalizing before rounding delivers every value faithful to the mantissa before the shift; no bit is lost |
| `Normalize2.Normalize2Sf` | sub/riscv_core/corev_apu/tb/dromajo/src/softfp_template.h:205-229 | the same for a mantissa of two words, in all three shift ranges |
| `Floats.RoundsToUnique` | sub/riscv_core/corev_apu/tb/dromajo/src/softfp_template.h:124-191 | the reference rounding has at most one result |
| `Floats.DeliversUnique` | sub/riscv_core/corev_apu/tb/dromajo/src/softfp_template.h:124-191 | so the prescribed bits and flags are a function of the exact value |
| `Totality.DeliversExists` | sub/riscv_core/corev_apu/tb/dromajo/src/softfp_template.h:124-191 | and there is one for every positive real number, so the reference is never empty |
| `Fields.FieldsMakeCode` | sub/riscv_core/corev_apu/tb/dromajo/src/softfp_template.h:94-107 | unpacking and packing are inverse: sign, exponent and mantissa make up the word |
| `Fields.KindOfFields` | sub/riscv_core/corev_apu/tb/dromajo/src/softfp_template.h:231-247 | NaN, infinity, finite and zero are what the fields say, in both directions |
| `Fields.IsSigNanSfCorrect` | sub/riscv_core/corev_apu/tb/dromajo/src/softfp_template.h:231-238 | issignan_sf holds exactly for NaNs whose first mantissa bit is clear |
| `Fields.PreparedNormal` | sub/riscv_core/corev_apu/tb/dromajo/src/softfp_template.h:314-320 | normalizing a subnormal operand keeps its value |
| `Fields.ExactDelivers` | sub/riscv_core/corev_apu/tb/dromajo/src/softfp_template.h:124-191 | a finite number is its own correctly rounded result, without a flag, in every mode |
| `Fields.QnanIs` | sub/riscv_core/corev_apu/tb/dromajo/src/softfp_template.h:92-92 | the NaN that is returned is positive, quiet, and has only the first bit of its mantissa set, in every format; every operation below promises this of its NaN results |
| `Fields.DefaultNanUnique` | sub/riscv_core/corev_apu/tb/dromajo/src/softfp_template.h:92-92 | and no other word is like that |
| `Fields.ValueOfFields` | sub/riscv_core/corev_apu/tb/dromajo/src/softfp_template.h:94-107 | the value of a word by its fields is that of section 3.4 of IEEE 754-2008, with bias 2^(w-1)-1 |
| `Fields.InterchangeFormats` | sub/riscv_core/corev_apu/tb/dromajo/src/softfp_template.h:62-66 | width, precision and bias of binary32, binary64 and binary128 |
| `Addition.AddSf` | sub/riscv_core/corev_apu/tb/dromajo/src/softfp_template.h:250-306 | add_sf returns the exact sum rounded once, with all flags, the quiet NaN and infinity cases and the sign of an exact zero of section 6.3 |
| `Addition.SumMantissaFaithful` | sub/riscv_core/corev_apu/tb/dromajo/src/softfp_template.h:282-304 | three extra bits and the jammed shift suffice, also after cancellation: the sum of mantissas stands for the exact sum |
| `Addition.SumCommutes` | sub/riscv_core/corev_apu/tb/dromajo/src/softfp_template.h:250-262 | swapping the operands, as the code does to order them, changes neither result nor flags |
| `Addition.SubSf` | sub/riscv_core/corev_apu/tb/dromajo/src/softfp_template.h:308-312 | sub_sf is addition of the negated operand |
| `WordProducts.MulU` | sub/riscv_core/corev_apu/tb/dromajo/src/softfp_template.h:324-332 | mul_u on a host with wide integers is the exact double-word product |
| `WordProducts.MulUHalves` | sub/riscv_core/corev_apu/tb/dromajo/src/softfp_template.h:336-359 | the half-word partial products with their carries are the exact double-word product, for every even width |
| `Multiplication.MulSf` | sub/riscv_core/corev_apu/tb/dromajo/src/softfp_template.h:365-415 | mul_sf returns the exact product rounded once, subnormal operands included |
| `WordProducts.Mulhu` | sub/riscv_core/corev_apu/tb/dromajo/src/dromajo_template.h:141-164 | mulhu returns the high word of the exact product |
| `WordProducts.Mulh` | sub/riscv_core/corev_apu/tb/dromajo/src/dromajo_template.h:168-177 | mulh returns the high word of the signed product if and only if both operands have the same sign: it subtracts each negative operand instead of the other one |
| `WordProducts.MulhOfMinusOne` | sub/riscv_core/corev_apu/tb/dromajo/src/dromajo_template.h:168-177 | a pair of operands on which mulh is wrong |
| `WordProducts.Mulhsu` | sub/riscv_core/corev_apu/tb/dromajo/src/dromajo_template.h:179-186 | mulhsu is right if and only if the signed operand is not negative, or the unsigned one is its two's complement image |
| `WordProducts.MulhsuOfMinusOne` | sub/riscv_core/corev_apu/tb/dromajo/src/dromajo_template.h:179-186 | a pair of operands on which mulhsu is wrong |
| `Fma.FmaSf` | sub/riscv_core/corev_apu/tb/dromajo/src/softfp_template.h:418-584 | fma_sf returns a*b+c rounded once, for all operands and modes, with the special cases and the sign of an exact zero |
| `Fma.FmaAlign` | sub/riscv_core/corev_apu/tb/dromajo/src/softfp_template.h:533-548 | the four shift ranges of the addend as a function of the exact shift |
| `Fma.AlignedFaithful` | sub/riscv_core/corev_apu/tb/dromajo/src/softfp_template.h:533-564 | whichever range is taken, the aligned sum or difference stands for the exact one; this includes the range that drops the low word of the addend |
| `Fma.FmaMultiply` | sub/riscv_core/corev_apu/tb/dromajo/src/softfp_template.h:494-503 | the double-word product is exact and has its leading bit at F_SIZE - 3 |
| `Fma.FmaCombine` | sub/riscv_core/corev_apu/tb/dromajo/src/softfp_template.h:523-582 | ordering, alignment, addition or subtraction and normalization deliver the exact sum |
| `WordDivision.DivremU` | sub/riscv_core/corev_apu/tb/dromajo/src/softfp_template.h:598-616 | the shift-and-subtract loop returns q and r with a1*2^F+a0 = q*b+r and r < b whenever a1 < b |
| `WordDivision.DivremULong` | sub/riscv_core/corev_apu/tb/dromajo/src/softfp_template.h:588-594 | so does the host division, and the quotient fits a word |
| `Division.DivSf` | sub/riscv_core/corev_apu/tb/dromajo/src/softfp_template.h:620-684 | div_sf returns the exact quotient rounded once, division by zero and the other special cases included |
| `SquareRoot.SqrtremULong` | sub/riscv_core/corev_apu/tb/dromajo/src/softfp_template.h:690-716 | the Newton loop ends, and its result is the integer square root if and only if the start value was not too low, a condition on the radicand; the inexact result is exact about the square |
| `SquareRoot.SqrtremU` | sub/riscv_core/corev_apu/tb/dromajo/src/softfp_template.h:720-747 | the same for the form with single words, for every radicand: it stops at the assertion of the division if and only if the radicand is the largest one, and otherwise ends at the root if and only if the start value was not too low |
| `SquareRoot.LargestWraps` | sub/riscv_core/corev_apu/tb/dromajo/src/softfp_template.h:736-742 | on that radicand the last sum is 2^F and wraps to zero |
| `SquareRoot.StartValue` | sub/riscv_core/corev_apu/tb/dromajo/src/softfp_template.h:695-706 | the start value is below the root exactly for radicands whose high word is a power of two with an even bit count and a large low word |
| `SquareRoot.StartTooLowWitness` | sub/riscv_core/corev_apu/tb/dromajo/src/softfp_template.h:695-706 | in every word of even size, a radicand with high word 1 on which the loop ends below the root |
| `SquareRoot.SqrtSf` | sub/riscv_core/corev_apu/tb/dromajo/src/softfp_template.h:751-798 | sqrt_sf returns the correctly rounded square root: a number that compares as the root with all numbers and midpoints of the format exists and is delivered, and so is every such number, the real root among them; and the special cases |
| `RealRoots.RootsDeliverAlike` | sub/riscv_core/corev_apu/tb/dromajo/src/softfp_template.h:751-798 | rounding only compares, so whatever compares as the root has the same rounded result and flags: the reference for roots leaves no choice |
| `RealRoots.RealRootCompares` | sub/riscv_core/corev_apu/tb/dromajo/src/softfp_template.h:751-798 | a real square root is such a number |
| `RealRoots.StandsInCompares` | sub/riscv_core/corev_apu/tb/dromajo/src/softfp_template.h:751-798 | and so is any point between the integer root of the shifted significand and the next integer, in units of the result, when the root is not exact |
| `WidthConversion.CvtWiden` | sub/riscv_core/corev_apu/tb/dromajo/src/softfp_template.h:981-1012 | conversion to a wider format is exact; subnormal numbers become normal ones |
| `WidthConversion.CvtNarrow` | sub/riscv_core/corev_apu/tb/dromajo/src/softfp_template.h:1014-1046 | conversion to a narrower format rounds the exact value once, although the code does not keep the normalized mantissa of a subnormal operand |
| `WidthConversion.WidensPairs` | sub/riscv_core/corev_apu/tb/dromajo/src/softfp_template.h:979-1118 | binary32 to binary64 and binary128, and binary64 to binary128, meet the size conditions |
| `WidthConversion.WidenThenNarrow` | sub/riscv_core/corev_apu/tb/dromajo/src/softfp_template.h:981-1046 | widening and narrowing gives back every number that is not a NaN, in every mode and without a flag |
| `IntConversion.CvtSfInt` | sub/riscv_core/corev_apu/tb/dromajo/src/softfp_template_icvt.h:54-124 | conversion to an integer of any width returns the exact value rounded in the mode when it fits, otherwise the nearer bound with only the invalid flag; NaN is like +infinity |
| `IntConversion.RoundsToIntUnique` | sub/riscv_core/corev_apu/tb/dromajo/src/softfp_template_icvt.h:92-114 | the rounded integer of a value is unique |
| `IntConversion.CvtIntSf` | sub/riscv_core/corev_apu/tb/dromajo/src/softfp_template_icvt.h:141-169 | conversion from an integer rounds its exact value once |
| `IntConversion.IntThenBack` | sub/riscv_core/corev_apu/tb/dromajo/src/softfp_template_icvt.h:54-183 | an integer of at most MANT_SIZE+1 significant bits survives the way to a number and back, in any modes and without a flag |
| `IntConversion.ExactIsSignificant` | sub/riscv_core/corev_apu/tb/dromajo/src/softfp_template_icvt.h:141-169 | and only such an integer becomes a number without the inexact flag |
| `IntConversion.RoundMagnitude` | sub/riscv_core/corev_apu/tb/dromajo/src/softfp_template_icvt.h:79-120 | the magnitude is rounded to the integer its exact value rounds to, and overflow is told if and only if that integer exceeds the bound |
| `IntConversion.RangeOfInt` | sub/riscv_core/corev_apu/tb/dromajo/src/softfp_template_icvt.h:79-87 | the bounds of an n-bit integer enclose 2^n values, from 0 or balanced |
| `SetAssociative.CacheAssoc.MoveToFront` | sub/riscv_core/corev_apu/tb/dromajo/src/LiveCacheCore.h:524-534 | the shifting loop rotates one entry to the front of its set and moves no other set |
| `SetAssociative.CacheAssoc.FindLinePrivate` | sub/riscv_core/corev_apu/tb/dromajo/src/LiveCacheCore.h:495-537 | a line is found if and only if its tag is in its set, and becomes the first of the set |
| `SetAssociative.CacheAssoc.FindLine2Replace` | sub/riscv_core/corev_apu/tb/dromajo/src/LiveCacheCore.h:539-622 | under LRU the line with the tag, or else the last of its set, becomes the first |
| `SetAssociative.CacheAssoc.FillLine` | sub/riscv_core/corev_apu/tb/dromajo/src/LiveCacheCore.h:231-237 | and gets the new tag |
| `Recency.SameSet` | sub/riscv_core/corev_apu/tb/dromajo/src/LiveCacheCore.h:495-622 | move to front keeps the set the list of its most recently used tags, most recent first |
| `Recency.OtherSet` | sub/riscv_core/corev_apu/tb/dromajo/src/LiveCacheCore.h:495-622 | and an access to another set changes nothing |
| `Recency.HoldsIsResident` | sub/riscv_core/corev_apu/tb/dromajo/src/LiveCacheCore.h:495-537 | a tag is in the cache if and only if it was used and fewer than assoc other tags of its set were used since |
| `Recency.AndBits` | sub/riscv_core/corev_apu/tb/dromajo/src/LiveCacheCore.h:289-300 | the set of a tag is its bitwise conjunction with the mask |
| `Recency.SetOfPower` | sub/riscv_core/corev_apu/tb/dromajo/src/LiveCacheCore.h:289-300 | which is the remainder when the number of sets is a power of two |
| `SetAssociative.AccessMirrors` | sub/riscv_core/corev_apu/tb/dromajo/src/LiveCacheCore.h:495-622 | one access keeps this for all sets at once, content stays a permutation of the lines |
| `LiveCaches.LiveCache.Read` | sub/riscv_core/corev_apu/tb/dromajo/src/LiveCache.cpp:98-110 | after any run of reads and writes with nonzero tags the lines, stamps, written marks and hit and miss counters are what the run says; an access with tag zero hits if and only if its set has an empty line, which becomes the first of the set and is stamped, and otherwise stops at an assertion |
| `LiveCaches.LiveCache.Write` | sub/riscv_core/corev_apu/tb/dromajo/src/LiveCache.cpp:112-126 | the same for writes |
| `SetAssociative.TakesEmptyMirrors` | sub/riscv_core/corev_apu/tb/dromajo/src/LiveCacheCore.h:495-537 | after such a hit the sets still list their most recently used tags if and only if that set was empty |
| `LiveCaches.FirstLineHits` | sub/riscv_core/corev_apu/tb/dromajo/src/LiveCache.cpp:98-110 | in an empty cache, the first read of the line with tag zero counts as a hit |
| `LiveCaches.LineOfAddress` | sub/riscv_core/corev_apu/tb/dromajo/src/LiveCacheCore.h:279-305 | an address lies in the line that its tag names |
| `LiveCaches.LiveCache.Traverse` | sub/riscv_core/corev_apu/tb/dromajo/src/LiveCache.cpp:128-159 | the result lists the addresses of exactly the resident lines whose last access was not the first of the run, each once, oldest first, the low bit set if and only if the line was written since its fill |
| `LiveCaches.ChosenIsListed` | sub/riscv_core/corev_apu/tb/dromajo/src/LiveCache.cpp:128-159 | selecting, sorting and skipping empty lines is that list |
| `MergeSorts.MergeSort` | sub/riscv_core/corev_apu/tb/dromajo/src/LiveCache.cpp:161-200 | mergeSort ends and sorts stably, for every length |
| `MergeSorts.SortsPermutes` | sub/riscv_core/corev_apu/tb/dromajo/src/LiveCache.cpp:161-200 | a stably sorted list is a permutation |
| `MergeSorts.SortsUnique` | sub/riscv_core/corev_apu/tb/dromajo/src/LiveCache.cpp:161-200 | and there is only one |
| `PageWalk.GetPhysMemRange` | sub/riscv_core/corev_apu/tb/dromajo/src/iomem.cpp:82-91 | of the ranges that cover an address the one registered last |
| `PageWalk.GetPhysAddr` | sub/riscv_core/corev_apu/tb/dromajo/src/riscv_cpu.cpp:330-450 | the loop over the levels computes the recursive translation |
| `MachineModel.SlowPath` | sub/riscv_core/corev_apu/tb/dromajo/src/riscv_cpu.cpp:533-606 | page walk and range search give the outcome of an access on a miss |
| `MachineModel.AccessedIs` | sub/riscv_core/corev_apu/tb/dromajo/src/riscv_cpu.cpp:268-291 | an access looks at one entry, that of its page number modulo 256, and a miss that reaches RAM replaces that entry alone |
| `PageWalk.TranslateMoves` | sub/riscv_core/corev_apu/tb/dromajo/src/riscv_cpu.cpp:330-450 | all addresses of a page are translated alike, superpages included |
| `PageWalk.LeafMeetsSpec` | sub/riscv_core/corev_apu/tb/dromajo/src/riscv_cpu.cpp:381-442 | on a leaf entry the walk is that of the privileged architecture if and only if the entry is not one of those let through: a misaligned superpage whose low j bits happen to be zero, or a user page fetched from in S-mode under SUM; those it accepts where the architecture faults |
| `PageWalk.TranslateMeetsSpec` | sub/riscv_core/corev_apu/tb/riscv-isa-sim/riscv/mmu.cc:249-312 | over all levels, tables and memories: the translation is the one the other simulator's walk and the architecture give if and only if the walk does not end at such an entry |
| `PageWalk.MisalignedAccepted` | sub/riscv_core/corev_apu/tb/dromajo/src/riscv_cpu.cpp:406-410 | a page table whose misaligned superpage is accepted |
| `PageWalk.UserFetchAccepted` | sub/riscv_core/corev_apu/tb/dromajo/src/riscv_cpu.cpp:387-395 | a page table from whose user page S-mode fetches |
| `PageWalk.TranslateKept` | sub/riscv_core/corev_apu/tb/dromajo/src/riscv_cpu.cpp:330-450 | a store to a word that no page walk reads changes no translation |
| `AddressBits.EntryBits` | sub/riscv_core/corev_apu/tb/dromajo/src/riscv_cpu.cpp:322-325 | V, R, W, X, U, A and D are bits 0 to 4, 6 and 7 of an entry |
| `AddressBits.CanonicalBits` | sub/riscv_core/corev_apu/tb/dromajo/src/riscv_cpu.cpp:355-361 | an address is accepted if and only if its bits from the topmost translated one up are all alike |
| `AddressBits.IndexBits` | sub/riscv_core/corev_apu/tb/dromajo/src/riscv_cpu.cpp:366-372 | the index into a table is nine bits of the address |
| `AddressBits.AddressOfEntry` | sub/riscv_core/corev_apu/tb/dromajo/src/riscv_cpu.cpp:383-383 | the page number of an entry stands two places lower than in an address |
| `AddressBits.LeafAddress` | sub/riscv_core/corev_apu/tb/dromajo/src/riscv_cpu.cpp:440-442 | a leaf leads to the page number of the entry above and the address below |
| `AddressBits.EntryWord` | sub/riscv_core/corev_apu/tb/dromajo/src/riscv_cpu.cpp:371-376 | an entry is read from RAM at the address of its table plus eight times the index |
| `AddressBits.RamAtIs` | sub/riscv_core/corev_apu/tb/dromajo/src/iomem.cpp:82-91 | RAM is found through the range registered last, as far into its block as the address is into the range |
| `AddressBits.SlowIs` | sub/riscv_core/corev_apu/tb/dromajo/src/riscv_cpu.cpp:533-606 | page fault, bus error, RAM or device: each outcome of a miss if and only if the translation and the memory map say so |
| `Tlb.TableWordAligned` | sub/riscv_core/corev_apu/tb/dromajo/src/riscv_cpu.cpp:366-377 | a walk reads its entries as the aligned words that stores change |
| `Tlb.FilledAgrees` | sub/riscv_core/corev_apu/tb/dromajo/src/riscv_cpu.cpp:553-562 | the entry a miss installs gives for every address of its page what the page walk gives |
| `MachineModel.Machine.TargetRead` | sub/riscv_core/corev_apu/tb/dromajo/src/riscv_cpu.cpp:268-291 | over every run, a load through the TLB goes where the slow path goes, unless something the flush rules do not cover happened since the last full flush |
| `MachineModel.Machine.TargetReadInsn` | sub/riscv_core/corev_apu/tb/dromajo/src/riscv_cpu.cpp:804-827 | the same for 16-bit fetches |
| `MachineModel.Machine.TargetWrite` | sub/riscv_core/corev_apu/tb/dromajo/src/riscv_cpu.cpp:293-310 | the same for stores, whose dirty bits are those of the slow path as well; the bytes at the pointer become those of the value and no other byte of memory changes; which harts become stale is exactly those whose page tables hold the word |
| `MachineModel.StoreBytes` | sub/riscv_core/corev_apu/tb/dromajo/src/riscv_cpu.cpp:303-303 | a store of any size changes exactly the bytes it is for, little-endian |
| `MachineModel.Machine.LocateStore` | sub/riscv_core/corev_apu/tb/dromajo/src/riscv_cpu.cpp:613-663 | a store miss marks the page before it installs the entry |
| `MachineModel.Machine.SetMstatus` | sub/riscv_core/corev_apu/tb/dromajo/src/riscv_cpu.cpp:901-914 | no change of MPRV, SUM, MXR or MPP leaves a stale entry behind |
| `MachineModel.Machine.WriteSatp` | sub/riscv_core/corev_apu/tb/dromajo/src/riscv_cpu.cpp:1364-1374 | nor does a change of satp |
| `MachineModel.Machine.SetPriv` | sub/riscv_core/corev_apu/tb/dromajo/src/riscv_cpu.cpp:1600-1606 | nor a change of privilege |
| `MachineModel.Machine.SfenceVma` | sub/riscv_core/corev_apu/tb/dromajo/src/dromajo_template.h:1445-1462 | SFENCE.VMA ends every staleness |
| `MachineModel.Machine.TrapToM` | sub/riscv_core/corev_apu/tb/dromajo/src/riscv_cpu.cpp:1670-1690 | a trap to M-mode makes a hart stale exactly when it comes from M-mode and moving MPP matters: MPRV is set, translation is on, and loads and stores may see less afterwards |
| `MachineModel.Machine.Mret` | sub/riscv_core/corev_apu/tb/dromajo/src/riscv_cpu.cpp:1719-1731 | the same for mret when it stays in the same mode |
| `StaleEntries.MoveKeepsExactly` | sub/riscv_core/corev_apu/tb/dromajo/src/riscv_cpu.cpp:1670-1731 | that condition is exact: all TLBs, maps and memories that agreed still agree after such a trap or return if and only if it does not hold; from U-mode to S-mode under SUM, and without translation, nothing is lost |
| `StaleEntries.ReturnRun` | sub/riscv_core/corev_apu/tb/dromajo/src/riscv_cpu.cpp:1719-1731 | a run from reset on which, after mret within M-mode, a load hits although the page walk faults |
| `StaleEntries.TrapRun` | sub/riscv_core/corev_apu/tb/dromajo/src/riscv_cpu.cpp:1670-1690 | a run on which, after a trap within M-mode, a load hits although there is no memory at its address |
| `MachineModel.FlushOne` | sub/riscv_core/corev_apu/tb/dromajo/src/riscv_cpu.cpp:848-860 | exactly the write entries that point into the block become invalid |
| `MachineModel.Machine.FlushTlbWriteRange` | sub/riscv_core/corev_apu/tb/dromajo/src/riscv_machine.cpp:1098-1104 | on every hart |
| `MachineModel.Machine.GetDirtyBits` | sub/riscv_core/corev_apu/tb/dromajo/src/iomem.cpp:143-169 | every page stored to since the last call is in the bitmap, for any number of harts and however many stores went through a TLB entry; the next bitmap starts empty |
| `MachineModel.Machine.SetAddr` | sub/riscv_core/corev_apu/tb/dromajo/src/iomem.cpp:200-224 | enabling, moving or disabling a range keeps the dirty-page invariant; harts become stale exactly when RAM that could be seen is not seen in its place any more |
| `StaleEntries.MapKeepsExactly` | sub/riscv_core/corev_apu/tb/dromajo/src/iomem.cpp:200-224 | that condition is exact as well: every hart that agreed still agrees if and only if all visible RAM stays visible at its address |
| `StaleEntries.FreePlaceKept` | sub/riscv_core/corev_apu/tb/dromajo/src/iomem.cpp:200-224 | as when a device or a disabled range is put where no RAM is |
| `StaleEntries.DisableRun` | sub/riscv_core/corev_apu/tb/dromajo/src/iomem.cpp:214-222 | a run on which a load still reads RAM that was disabled |
| `DirtyBits.MarkedIs` | sub/riscv_core/corev_apu/tb/dromajo/src/iomem.h:122-143 | setting a dirty bit sets the bit of that page and of no other |
| `DirtyBits.DirtyPlace` | sub/riscv_core/corev_apu/tb/dromajo/src/iomem.h:134-143 | the bit of a page is bit page mod 32 of word page / 32 |
| `Tlb.PageIs` | sub/riscv_core/corev_apu/tb/dromajo/src/iomem.h:122-132 | pages are 4096 bytes long |
| `BootInterp.FieldsOfAuipc` | sub/riscv_core/corev_apu/tb/dromajo/src/riscv_cpu.cpp:2147-2153 | the upper immediate makes up for the sign of the lower one |
| `BootInterp.WordFields` | sub/riscv_core/corev_apu/tb/dromajo/src/riscv_cpu.cpp:2137-2180 | the fields of an encoded instruction are read back by the decoder |
| `CsrBits.KnownWords` | sub/riscv_core/corev_apu/tb/dromajo/src/riscv_cpu.cpp:2137-2180 | the encoders give the words of the instruction set for auipc, addi, ld, sd, fld, csrrw and csrrs |
| `CsrBits.BranchFields` | sub/riscv_core/corev_apu/tb/dromajo/src/dromajo_template.h:886-893 | the scattered immediate of a branch is read back by the decoder |
| `CsrBits.StoreFields` | sub/riscv_core/corev_apu/tb/dromajo/src/dromajo_template.h:984-988 | so is that of a store |
| `CsrBits.JumpFieldsBack` | sub/riscv_core/corev_apu/tb/dromajo/src/dromajo_template.h:835-842 | and that of a jump |
| `CsrBits.MaskedBits` | sub/riscv_core/corev_apu/tb/dromajo/src/riscv_cpu.cpp:1381-1422 | writing through a mask takes over exactly the bits of the mask |
| `CsrBits.MstatusBits` | sub/riscv_core/corev_apu/tb/dromajo/src/riscv_cpu.cpp:871-914 | the bits of mstatus that can be written |
| `CsrBits.MedelegBits` | sub/riscv_core/corev_apu/tb/dromajo/src/riscv_cpu.cpp:1382-1386 | the exceptions that can be delegated |
| `CsrBits.MidelegMipBits` | sub/riscv_core/corev_apu/tb/dromajo/src/riscv_cpu.cpp:1387-1422 | the interrupts that can be delegated, and made pending |
| `CsrBits.MieBits` | sub/riscv_core/corev_apu/tb/dromajo/src/riscv_cpu.cpp:1391-1394 | the interrupts that can be enabled |
| `CsrBits.StvecBits` | sub/riscv_core/corev_apu/tb/dromajo/src/riscv_cpu.cpp:1339-1343 | the bits of stvec, with the alignment of vector tables |
| `CsrBits.MtvecBits` | sub/riscv_core/corev_apu/tb/dromajo/src/riscv_cpu.cpp:1395-1399 | the same for mtvec within the physical address |
| `CsrBits.CounterBits` | sub/riscv_core/corev_apu/tb/dromajo/src/riscv_cpu.cpp:1344-1346 | counter controls have 32 bits, and bit 1 of mcountinhibit stays clear |
| `CsrBits.EventBits` | sub/riscv_core/corev_apu/tb/dromajo/src/riscv_cpu.cpp:1496-1497 | the bits of an event selector |
| `CsrBits.PmpCfgBits` | sub/riscv_core/corev_apu/tb/dromajo/src/riscv_cpu.cpp:1499-1523 | locked bytes of pmpcfg0 stay, others are taken over without the reserved bits |
| `CsrBits.PmpAddrBits` | sub/riscv_core/corev_apu/tb/dromajo/src/riscv_cpu.cpp:1525-1547 | pmpaddr0 to pmpaddr7 have 38 bits, the others do not exist |
| `CsrBits.AbsentRegisters` | sub/riscv_core/corev_apu/tb/dromajo/src/riscv_cpu.cpp:1424-1426 | there is one trigger and one pmpcfg register |
| `CsrBits.CauseBitsAre` | sub/riscv_core/corev_apu/tb/dromajo/src/riscv_cpu.cpp:1354-1414 | mcause and scause keep the interrupt bit and their lowest bits |
| `CsrBits.SatpBitsAre` | sub/riscv_core/corev_apu/tb/dromajo/src/riscv_cpu.cpp:1364-1371 | satp keeps the mode and the page number |
| `CsrBits.SatpModes` | sub/riscv_core/corev_apu/tb/dromajo/src/riscv_cpu.cpp:1367-1371 | and is written only with the modes for bare, Sv39 and Sv48 |
| `CsrBits.DcsrBitsAre` | sub/riscv_core/corev_apu/tb/dromajo/src/riscv_cpu.cpp:1448-1455 | dcsr takes over stopcount, stoptime and the privilege |
| `CsrBits.InsnAlignedBits` | sub/riscv_core/corev_apu/tb/dromajo/src/riscv_cpu.cpp:1350-1353 | epc registers lose their last bit or two |
| `BootRom.RunLoad` | sub/riscv_core/corev_apu/tb/dromajo/src/riscv_cpu.cpp:2233-2243 | auipc, addi and ld load the doubleword of the data pool |
| `BootRom.RunItem` | sub/riscv_core/corev_apu/tb/dromajo/src/riscv_cpu.cpp:2193-2276 | running the code of a recovery step has its effect and ends behind it |
| `BootRom.RunItems` | sub/riscv_core/corev_apu/tb/dromajo/src/riscv_cpu.cpp:2278-2419 | running the code of all steps has all their effects in order |
| `BootBuilder.RomBuilder.SkipCsrRecovery` | sub/riscv_core/corev_apu/tb/dromajo/src/riscv_cpu.cpp:2182-2191 | a CSR is skipped if and only if it is listed as missing |
| `BootBuilder.RomBuilder.CreateCsr64Recovery` | sub/riscv_core/corev_apu/tb/dromajo/src/riscv_cpu.cpp:2217-2231 | emits the step and leaves what was emitted before in place |
| `BootBuilder.RomBuilder.CreateCsr12Recovery` | sub/riscv_core/corev_apu/tb/dromajo/src/riscv_cpu.cpp:2193-2200 | the same for 12-bit values |
| `BootBuilder.RomBuilder.CreateRegRecovery` | sub/riscv_core/corev_apu/tb/dromajo/src/riscv_cpu.cpp:2233-2243 | the same for registers |
| `BootBuilder.RomBuilder.CreateIo64Recovery` | sub/riscv_core/corev_apu/tb/dromajo/src/riscv_cpu.cpp:2245-2265 | the same for a store to a device |
| `BootBuilder.RomBuilder.CreateHangNonzeroHart` | sub/riscv_core/corev_apu/tb/dromajo/src/riscv_cpu.cpp:2267-2276 | the prologue that lets only hart 0 through |
| `BootRom.OtherHartsHang` | sub/riscv_core/corev_apu/tb/dromajo/src/riscv_cpu.cpp:2267-2276 | a hart other than 0 that runs these words never gets beyond them and changes nothing but a0 |
| `BootBuilder.RomBuilder.RestoreDebug` | sub/riscv_core/corev_apu/tb/dromajo/src/riscv_cpu.cpp:2295-2307 | pc and privilege go to dpc and dcsr |
| `BootBuilder.RomBuilder.RestoreFpu` | sub/riscv_core/corev_apu/tb/dromajo/src/riscv_cpu.cpp:2325-2348 | with mstatus first, no floating-point access traps; with the unit on, its status ends dirty, flags and rounding mode are as saved, and each register is its low half beside the high half of the integer register of the same number; with the unit off nothing of it changes |
| `BootBuilder.FpRegisterLost` | sub/riscv_core/corev_apu/tb/dromajo/src/riscv_cpu.cpp:2339-2347 | a saved state on which running the ROM loses a floating-point register |
| `BootBuilder.RomBuilder.RestoreMachine` | sub/riscv_core/corev_apu/tb/dromajo/src/riscv_cpu.cpp:2356-2378 | delegation, enables, vectors, events, event counters, triggers and memory protection each hold what csr_write makes of the saved value over the value before, unless listed as missing, and nothing else changes |
| `BootBuilder.CounterControlSurvives` | sub/riscv_core/corev_apu/tb/dromajo/src/riscv_cpu.cpp:2193-2200 | the counter controls, which are restored with 12 bits, come back if and only if they are below 0x800 or at least 0xfffff800 |
| `BootBuilder.RomBuilder.RestoreTraps` | sub/riscv_core/corev_apu/tb/dromajo/src/riscv_cpu.cpp:2380-2390 | scratch, epc, cause and tval registers get their saved values |
| `BootBuilder.RomBuilder.RestoreRegs` | sub/riscv_core/corev_apu/tb/dromajo/src/riscv_cpu.cpp:2392-2394 | x3 to x31 get their saved values |
| `BootBuilder.RomBuilder.RestoreTimers` | sub/riscv_core/corev_apu/tb/dromajo/src/riscv_cpu.cpp:2402-2407 | mtimecmp and mtime of the interrupt controller are stored to, with their saved values and in this order; the cycle and instruction counters are written, and only x1 and x2 are disturbed |
| `BootBuilder.RomBuilder.RestoreLast` | sub/riscv_core/corev_apu/tb/dromajo/src/riscv_cpu.cpp:2409-2416 | satp is written last, by way of x1, and x1 is given back from dscratch |
| `BootBuilder.CreateBootRom` | sub/riscv_core/corev_apu/tb/dromajo/src/riscv_cpu.cpp:2278-2434 | for every saved state in the form csr_write leaves, code and data fit and stay apart, and running the words from a debug-mode reset ends with x1 to x31, pc, privilege, scratch, epc, cause, tval and satp as saved; with the floating-point unit on, a floating-point register comes back if and only if its high half is that of the integer register of the same number, and with it off these registers are left alone; mstatus and the other machine CSRs hold what csr_write makes of their saved values; the device stores made are those of the two timers; with a single hart configured, the words begin with the prologue that keeps other harts out |
| `DebugModule.CsrWriteCommand` | sub/riscv_core/corev_apu/tb/riscv-isa-sim/riscv/debug_module.cc:514-547 | the code of a CSR write puts the data there and gives s0 back if and only if the CSR is not dscratch or the values coincide |
| `DebugModule.CsrReadCommand` | sub/riscv_core/corev_apu/tb/riscv-isa-sim/riscv/debug_module.cc:514-547 | the code of a CSR read stores the value and changes no register; reading dscratch yields s0 |
| `DebugModule.RegisterCommand` | sub/riscv_core/corev_apu/tb/riscv-isa-sim/riscv/debug_module.cc:549-568 | the code of a register command moves the register to or from the data words and nothing else |
| `DebugModule.FpRegisterCommand` | sub/riscv_core/corev_apu/tb/riscv-isa-sim/riscv/debug_module.cc:570-603 | so does that of a command for a floating-point register |
| `DebugModule.PlainCommand` | sub/riscv_core/corev_apu/tb/riscv-isa-sim/riscv/debug_module.cc:511-629 | a command without a transfer changes nothing |
| `DebugModule.LastInstruction` | sub/riscv_core/corev_apu/tb/riscv-isa-sim/riscv/debug_module.cc:623-629 | the code ends in ebreak, or in a jump to the program buffer if and only if that was asked for |
| `DebugModule.Supported` | sub/riscv_core/corev_apu/tb/riscv-isa-sim/riscv/debug_module.cc:500-637 | exactly which commands are refused, and which are for custom registers |
| `DebugModule.PartialIs` | sub/riscv_core/corev_apu/tb/riscv-isa-sim/riscv/debug_module.cc:511-547 | when the size is refused, what is already written is the part of the code that does not depend on it |
| `DebugModule.CompiledFits` | sub/riscv_core/corev_apu/tb/riscv-isa-sim/riscv/debug_module.cc:511-629 | no command writes beyond debug_abstract |
| `DebugModule.System.StoreHalted` | sub/riscv_core/corev_apu/tb/riscv-isa-sim/riscv/debug_module.cc:180-191 | busy is cleared only here, only by the selected hart, and only after it passed GOING exactly once |
| `DebugModule.System.StoreGoing` | sub/riscv_core/corev_apu/tb/riscv-isa-sim/riscv/debug_module.cc:193-196 | a hart passes GOING only while busy, for the first time, and with the code of the command still in place |
| `DebugModule.System.HartHalts` | sub/riscv_core/corev_apu/tb/riscv-isa-sim/debug_rom/debug_rom.S:12-25 | a hart may enter the debug ROM at any time |
| `DebugModule.System.LoadGoFlag` | sub/riscv_core/corev_apu/tb/riscv-isa-sim/debug_rom/debug_rom.S:31-36 | a hart goes on to GOING only if it is selected, a command is running and none has passed yet |
| `DebugModule.System.LoadResumeFlag` | sub/riscv_core/corev_apu/tb/riscv-isa-sim/debug_rom/debug_rom.S:37-41 | a hart resumes only if its flag is set, also while a command is pending |
| `DebugModule.System.CommandStore` | sub/riscv_core/corev_apu/tb/riscv-isa-sim/riscv/debug_module.cc:169-178 | stores of a command to the data words and the program buffer happen only while busy |
| `DebugModule.System.CommandEnds` | sub/riscv_core/corev_apu/tb/riscv-isa-sim/debug_rom/debug_rom.S:21-33 | a command that ends leads back to the HALTED store, still busy and after one GOING |
| `DebugModule.System.CommandFaults` | sub/riscv_core/corev_apu/tb/riscv-isa-sim/debug_rom/debug_rom.S:43-45 | so does one that faults |
| `DebugModule.System.StoreException` | sub/riscv_core/corev_apu/tb/riscv-isa-sim/riscv/debug_module.cc:206-211 | an exception sets cmderr only if it was clear |
| `DebugModule.System.StoreResuming` | sub/riscv_core/corev_apu/tb/riscv-isa-sim/riscv/debug_module.cc:198-204 | resuming is acknowledged and keeps the invariant, also while a command is pending |
| `DebugModule.System.PerformAbstractCommand` | sub/riscv_core/corev_apu/tb/riscv-isa-sim/riscv/debug_module.cc:491-638 | a command starts only without a pending error, on a halted hart, when none is running; otherwise nothing it works on changes, and cmderr becomes what section 3.6 of RISC-V External Debug Support 0.13 asks |
| `DebugModule.OutcomeIs` | sub/riscv_core/corev_apu/tb/riscv-isa-sim/riscv/debug_module.cc:491-508 | cmderr is sticky, 1 while busy, 4 for a hart that is not halted, 2 for a command that is not supported |
| `DebugModule.System.Dispatch` | sub/riscv_core/corev_apu/tb/riscv-isa-sim/riscv/debug_module.cc:500-637 | what is compiled is written to debug_abstract and GO is raised; custom registers and unsupported commands leave no command running |
| `DebugModule.System.ReadData` | sub/riscv_core/corev_apu/tb/riscv-isa-sim/riscv/debug_module.cc:316-330 | while busy a read gives all ones and changes nothing a command works on; cmderr is sticky |
| `DebugModule.System.WriteData` | sub/riscv_core/corev_apu/tb/riscv-isa-sim/riscv/debug_module.cc:648-660 | the same for writes |
| `DebugModule.System.ReadProgbuf` | sub/riscv_core/corev_apu/tb/riscv-isa-sim/riscv/debug_module.cc:331-340 | the same for the program buffer |
| `DebugModule.System.WriteProgbuf` | sub/riscv_core/corev_apu/tb/riscv-isa-sim/riscv/debug_module.cc:662-671 | the same for writes to it |
| `DebugModule.System.WriteCommand` | sub/riscv_core/corev_apu/tb/riscv-isa-sim/riscv/debug_module.cc:715-717 | a command written while busy does not start |
| `DebugModule.System.WriteAbstractcs` | sub/riscv_core/corev_apu/tb/riscv-isa-sim/riscv/debug_module.cc:719-721 | a one clears its bit of cmderr, a zero keeps it, none is ever set; the error is gone if and only if all its bits are written with ones |
| `DebugModule.System.WriteAbstractauto` | sub/riscv_core/corev_apu/tb/riscv-isa-sim/riscv/debug_module.cc:723-728 | setting autoexec changes nothing a command works on |
| `DebugModule.System.WriteDmcontrol` | sub/riscv_core/corev_apu/tb/riscv-isa-sim/riscv/debug_module.cc:682-701 | halt and resume requests for the selected hart do not disturb a running command, nor does selecting another hart when no command is running, when the hart passed GOING and is done with it, or when it is the only hart and passed GOING |
| `DebugModule.SelectBreaks` | sub/riscv_core/corev_apu/tb/riscv-isa-sim/riscv/debug_module.cc:180-196 | these are all the cases: from every other valid state, selecting another hart has a continuation on which the command passes GOING twice, or on which it is taken to be over while its hart is still at it |
| `DebugModule.EndedEarlyRun` | sub/riscv_core/corev_apu/tb/riscv-isa-sim/riscv/debug_module.cc:180-191 | a run of the second kind: the HALTED store of a newly selected hart ends the command of another |
| `DebugModule.ReselectedRun` | sub/riscv_core/corev_apu/tb/riscv-isa-sim/riscv/debug_module.cc:193-196 | a run of the first kind: another hart is selected while a command is picked up, and the command passes GOING twice |
| `FdtFormat.TreeBack` | sub/riscv_core/corev_apu/tb/dromajo/src/riscv_machine.cpp:523-574 | the calls that write a tree determine it |
| `FdtFormat.NameAt` | sub/riscv_core/corev_apu/tb/dromajo/src/riscv_machine.cpp:543-565 | a name is read back at its offset in the string table |
| `FdtFormat.OffsetKept` | sub/riscv_core/corev_apu/tb/dromajo/src/riscv_machine.cpp:543-565 | offsets stay valid when the table grows |
| `FdtFormat.ParseBack` | sub/riscv_core/corev_apu/tb/dromajo/src/riscv_machine.cpp:507-574 | a reference parser reads the calls back from the structure block |
| `FdtFormat.BlobBack` | sub/riscv_core/corev_apu/tb/dromajo/src/riscv_machine.cpp:651-701 | and the tree from the whole blob; the blocks are disjoint, aligned and within totalsize |
| `FdtWriter.TreeDepth` | sub/riscv_core/corev_apu/tb/dromajo/src/riscv_machine.cpp:523-541 | writing a tree closes every node it opens, so the assertion of fdt_output holds |
| `FdtWriter.FdtState.FdtGetStringOffset` | sub/riscv_core/corev_apu/tb/dromajo/src/riscv_machine.cpp:543-565 | returns the offset of the name, adding it only if it is new, so the table has no duplicates |
| `FdtWriter.FdtState.FdtBeginNode` | sub/riscv_core/corev_apu/tb/dromajo/src/riscv_machine.cpp:523-528 | appends the token and the padded name |
| `FdtWriter.FdtState.FdtEndNode` | sub/riscv_core/corev_apu/tb/dromajo/src/riscv_machine.cpp:537-541 | appends the token |
| `FdtWriter.FdtState.FdtProp` | sub/riscv_core/corev_apu/tb/dromajo/src/riscv_machine.cpp:567-574 | appends a property; what was written before stays valid |
| `FdtWriter.FdtState.FdtPropTabU32` | sub/riscv_core/corev_apu/tb/dromajo/src/riscv_machine.cpp:576-585 | the same for cells |
| `FdtWriter.CellBack` | sub/riscv_core/corev_apu/tb/dromajo/src/riscv_machine.cpp:576-585 | each cell is read back as a word |
| `FdtWriter.WriteBlob` | sub/riscv_core/corev_apu/tb/dromajo/src/riscv_machine.cpp:659-700 | header, structure, reservation and strings blocks are written where the header says, with zero padding |
| `FdtWriter.FdtState.FdtOutput` | sub/riscv_core/corev_apu/tb/dromajo/src/riscv_machine.cpp:650-701 | for every tree, if the calls were those of the tree, the parser returns it from the bytes written; magic, versions, an empty reservation block and zero padding are as the format asks; bytes behind them are untouched |
| `CacheSim.CheckTag` | sub/riscv_core/corev_apu/tb/riscv-isa-sim/riscv/cachesim.cc:103-113 | finds a line if and only if it is present |
| `CacheSim.SlotIs` | sub/riscv_core/corev_apu/tb/riscv-isa-sim/riscv/cachesim.cc:103-113 | a slot is for exactly the tags with the same remainder modulo the number of sets |
| `CacheSim.TagIs` | sub/riscv_core/corev_apu/tb/riscv-isa-sim/riscv/cachesim.cc:103-108 | the tag of an address is the number of its line |
| `CacheSim.Victimize` | sub/riscv_core/corev_apu/tb/riscv-isa-sim/riscv/cachesim.cc:115-122 | the new line is in its set, no line is in two ways, and a dirty victim leaves one dirty line fewer |
| `CacheSim.MarkDirty` | sub/riscv_core/corev_apu/tb/riscv-isa-sim/riscv/cachesim.cc:132-134 | a store counts one clean-to-dirty transition if and only if the line was clean |
| `CacheSim.LineAddress` | sub/riscv_core/corev_apu/tb/riscv-isa-sim/riscv/cachesim.cc:147-153 | the address written back is that of the evicted line |
| `CacheSim.DirtyLinesAfter` | sub/riscv_core/corev_apu/tb/riscv-isa-sim/riscv/cachesim.cc:129-160 | replacing a line changes the number of dirty lines accordingly |
| `CacheSim.FeedsAll` | sub/riscv_core/corev_apu/tb/riscv-isa-sim/riscv/cachesim.cc:145-156 | the reads a cache receives are the misses of its parent, the writes its writebacks, in number and in bytes |
| `CacheSim.Hierarchy.Exchange` | sub/riscv_core/corev_apu/tb/riscv-isa-sim/riscv/cachesim.cc:145-156 | writeback and fill of a miss keep the books at this level and below |
| `CacheSim.Hierarchy.Store` | sub/riscv_core/corev_apu/tb/riscv-isa-sim/riscv/cachesim.cc:158-159 | the line found again after the recursive calls is the one just filled, and only it becomes dirty |
| `CacheSim.Hierarchy.Access` | sub/riscv_core/corev_apu/tb/riscv-isa-sim/riscv/cachesim.cc:124-160 | for a chain of any length, one access at any level keeps: no line in two ways, clean-to-dirty transitions equal writebacks plus dirty lines, and the counts along the chain; afterwards the line is present, and dirty after a store, and a miss asked the next cache to take a dirty victim and to give the line, each by its own address |
| `Traps.TrapUnit.RaiseException2` | sub/riscv_core/corev_apu/tb/dromajo/src/riscv_cpu.cpp:1647-1697 | the assignments of a trap, one after the other: cause, value and program counter, the latter two made canonical, go to the registers of the level that takes it, its enable bit and the privilege are pushed, the handler starts at the base of the right vector table or, for interrupts in mode 1, 4 * n bytes behind it, and nothing else changes |
| `Traps.RaiseTraps` | sub/riscv_core/corev_apu/tb/dromajo/src/riscv_cpu.cpp:1647-1697 | the same of the pure function the lemmas below are about |
| `Traps.TruncatedIs` | sub/riscv_core/corev_apu/tb/dromajo/src/riscv_cpu.cpp:1656-1658 | addresses are kept in 49 bits and sign-extended |
| `Traps.TrapUnit.HandleSret` | sub/riscv_core/corev_apu/tb/dromajo/src/riscv_cpu.cpp:1704-1717 | sret pops the stack of S-mode and changes nothing else |
| `Traps.TrapUnit.HandleMret` | sub/riscv_core/corev_apu/tb/dromajo/src/riscv_cpu.cpp:1719-1731 | mret pops that of M-mode |
| `Traps.TrapUnit.RaiseInterrupt` | sub/riscv_core/corev_apu/tb/dromajo/src/riscv_cpu.cpp:1741-1785 | takes the lowest deliverable interrupt if there is one, and afterwards none for that level is deliverable |
| `Traps.DeliverableIs` | sub/riscv_core/corev_apu/tb/dromajo/src/riscv_cpu.cpp:1741-1766 | an interrupt is deliverable if and only if it is pending, enabled, and for a higher level or for the present one with its interrupts enabled |
| `Traps.NoTrapLowers` | sub/riscv_core/corev_apu/tb/dromajo/src/riscv_cpu.cpp:1647-1690 | no trap lowers the privilege, and S-mode gets exactly the delegated ones |
| `Traps.InterruptQuiet` | sub/riscv_core/corev_apu/tb/dromajo/src/riscv_cpu.cpp:1741-1766 | right after an interrupt nothing for its level is deliverable |
| `Traps.StaysQuiet` | sub/riscv_core/corev_apu/tb/dromajo/src/riscv_cpu.cpp:1741-1766 | and that lasts through any run of software that leaves the enable bit of its level alone and of traps to M-mode and back, whatever becomes pending, enabled or delegated |
| `Traps.QuietAfterInterrupt` | sub/riscv_core/corev_apu/tb/dromajo/src/riscv_cpu.cpp:1741-1785 | so after an interrupt nothing for its level is deliverable until software enables it again |
| `Traps.RoundThroughM` | sub/riscv_core/corev_apu/tb/dromajo/src/riscv_cpu.cpp:1670-1731 | a trap to M-mode, any handler that leaves mstatus as it finds it, and mret give back privilege, SIE and MIE, and pc made canonical if mepc was left alone |
| `Traps.HandlerKeeps` | sub/riscv_core/corev_apu/tb/dromajo/src/riscv_cpu.cpp:1670-1731 | any run of S-mode software that in the end leaves sepc, SPP and SPIE alone and of such rounds keeps the S-mode stack |
| `Traps.TrapStack` | sub/riscv_core/corev_apu/tb/dromajo/src/riscv_cpu.cpp:1647-1731 | a delegated trap, a handler of that kind with any number of traps to M-mode, and sret restore privilege, SIE, MIE, and pc if and only if it was canonical |

## Left out

- Comparisons, minimum, maximum and classification of floats: easy members beside the operations.
- Conversions through the public wrappers of softfp_template_icvt.h: calls of the internal functions modelled here.
- Exponents of the float operations are unbounded integers: the 32-bit variables of the code never come near their range.
- `or` of disjoint bit fields is written as addition, and pointers into arrays as indices.
- IntConversion.CvtSfInt: widths up to 2^(EXP_SIZE-1), which holds for every pair the library instantiates.
- Rounding.NormalizeSf: a mantissa of at most F_SIZE-1 bits, as the assertion in the code demands.
- LiveCache: the RANDOM and LRUp policies, the xor index and the direct-mapped cache, which the class never selects; 64-bit counters are unbounded.
- PageWalk.TranslateMoves: hardware management of the A and D bits is compiled out; a page table in a device range, which the code would dereference, counts as an access fault; physical memory protection always grants access.
- MachineModel.Machine.TargetReadInsn: 32-bit fetches that cross a page are not modelled.
- MachineModel.Machine.SetAddr: page-aligned addresses only.
- MachineModel.Machine.TargetWrite: a store to a word of a hart's page tables makes it stale even if no entry is affected; software has to fence there.
- MachineModel.Machine.TargetRead: device callbacks are an outcome, not executed; misaligned accesses are refused as in the configuration of the repository.
- BootBuilder.CreateBootRom: interrupts are taken not to be deliverable, the saved privilege 2 ends the program as in the code, and no CSR that has to come back is listed as missing. Of misa and the counters, which ignore writes or run on, the value last written is followed.
- BootInterp: instructions the ROM does not use, and the warm-up loads of the live cache.
- DebugModule.System.WriteDmcontrol: resets of a hart or of the module; a hart may enter the debug ROM at any time, whether or not it was asked to.
- DebugModule.System.CommandStore: program buffers that store to the module's own registers.
- DebugModule.CsrWriteCommand: CSRs hold what is written to them.
- Debug module: system bus access, autoincrement and authentication.
- FdtWriter.FdtState.FdtOutput: sizes below 2^32, and a buffer that is large enough, which the code assumes.
- CacheSim.Victimize: the way is any way of the set, so the shift register is not modelled; fa_cache_sim_t keeps its lines in a map, which is read as the slots of one set.
- The rest of the interpreter, devices, co-simulation, configuration and file handling.
