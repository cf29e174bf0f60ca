# AArch64 processor description of the OMR JIT compiler

This project models `OMR::ARM64::CPU`, the AArch64 processor description that
the OMR compiler's code generator consults while selecting instructions. A
descriptor holds three things:

- the reported (logical) processor;
- the physical processor;
- a fixed array of 32-bit feature words.

It answers capability questions: is square root done in hardware, can integers
be rotated, is a feature present. It also answers how far a B or BL branch
instruction can jump, and whether a given target is within that reach.

Modules:

- `Int32` (`int32.dfy`): the `int32_t` range and the two's-complement
  conversion of a wider value into it. The backward branch limit needs this,
  because it is written as the unsigned literal `0xf8000000` and returned as
  `int32_t`.
- `A64Branch` (`a64_branch.dfy`): the 26-bit immediate of the A64 B and BL
  instructions. The Arm Architecture Reference Manual for A-profile,
  chapter C6, defines the offset as `SignExtend(imm26:'00')`. This module is
  the reference definition that the descriptor's limits are proved against.
- `Arm64Cpu` (`arm64_cpu.dfy`): the class `CPU` and the lemmas about it.
  - Its two constructors write the fields and fill the feature array word by
    word, as the `memset` and the copy in the source do.
  - Its queries are functions. The constant ones read no state at all.
    `SupportsFeature` only reads the descriptor. So by Dafny's frame rules no
    query can change the descriptor, and the constant answers cannot depend on
    it.

The branch range check is modelled from its documentation and the two limits
(the body lives in a `.cpp` file that is not part of this model). It holds
iff `backward <= target - source <= forward`, with both limits included. The
backward limit is `0xf8000000` converted to `int32_t`, that is `-0x08000000`.
So it is a signed lower bound, not a magnitude. Reading it as a magnitude,
`|target - source| <= backward`, would reject every backward branch, because
no positive distance is at most a negative number
(`Arm64Cpu.BackwardLimitIsNotAMagnitude`).

## Model

| member | source | states |
|---|---|---|
| `Int32.ToInt32` | compiler/aarch64/env/OMRCPU.hpp:81 | the `int32_t` value of an integer lies in the signed 32-bit range and is congruent to the integer modulo 2^32 |
| `Int32.ToInt32Unique` | compiler/aarch64/env/OMRCPU.hpp:81 | those two facts determine the converted value, so the backward limit is fixed by them |
| `Int32.ToInt32Identity` | compiler/aarch64/env/OMRCPU.hpp:73 | a value already in `int32_t` range converts to itself, so the forward limit 0x07fffffc is returned as `int32_t` unchanged |
| `Arm64Cpu.CPU.constructor` | compiler/aarch64/env/OMRCPU.hpp:51-56 | default construction makes both processors ARMv8-A (physical equals logical), creates exactly the fixed number of feature words, zeroes every one, and so no feature is reported |
| `Arm64Cpu.CPU.FromDescription` | compiler/aarch64/env/OMRCPU.hpp:57 | construction from a supplied description holds exactly that description |
| `Arm64Cpu.CPU.SupportsHardwareSqrt` | compiler/aarch64/env/OMRCPU.hpp:61-65 | hardware square root is reported available for every descriptor |
| `Arm64Cpu.CPU.MaxUnconditionalBranchImmediateForwardOffset` | compiler/aarch64/env/OMRCPU.hpp:67-73 | the forward limit is a positive `int32_t`, a multiple of 4, and the largest multiple of 4 below 2^27 |
| `Arm64Cpu.CPU.MaxUnconditionalBranchImmediateBackwardOffset` | compiler/aarch64/env/OMRCPU.hpp:75-81 | the backward limit, read as `int32_t`, is negative, a multiple of 4, and equal to -2^27 |
| `Arm64Cpu.CPU.IsTargetWithinUnconditionalBranchImmediateRange` | compiler/aarch64/env/OMRCPU.hpp:83-96 | holds iff `backward <= target - source <= forward`, both limits included; that is, iff the displacement lies in [-2^27, 2^27 - 4] |
| `Arm64Cpu.BackwardLimitIsNotAMagnitude` | compiler/aarch64/env/OMRCPU.hpp:75-81 | the backward limit is a signed lower bound: read as a magnitude it would admit no backward branch |
| `Arm64Cpu.RangeIffEncodable` | compiler/aarch64/env/OMRCPU.hpp:83-96 | for every word-aligned displacement, the range check holds iff some B/BL immediate encodes that displacement |
| `Arm64Cpu.RangeBoundaries` | compiler/aarch64/env/OMRCPU.hpp:83-96 | the range check holds at displacement `forward` and at `backward`, and fails at `forward + 1`, `forward + 4`, `backward - 1` and `backward - 4` |
| `Arm64Cpu.RangeCoversImmediateField` | compiler/aarch64/env/OMRCPU.hpp:73-81 | the range check admits exactly 2^26 word-aligned displacements, as many as the 26-bit immediate has values |
| `Arm64Cpu.CPU.SupportsHardware32bitRotate` | compiler/aarch64/env/OMRCPU.hpp:98-107 | 32-bit rotate is reported available iff rotate-left is not required |
| `Arm64Cpu.CPU.SupportsHardware64bitRotate` | compiler/aarch64/env/OMRCPU.hpp:108-117 | 64-bit rotate is reported available iff rotate-left is not required |
| `Arm64Cpu.RotateDefaults` | compiler/aarch64/env/OMRCPU.hpp:107-117 | called with the default argument `false`, both rotate queries answer true; asked for rotate-left, both answer false |
| `Arm64Cpu.CPU.SupportsFeature` | compiler/aarch64/env/OMRCPU.hpp:119-125 | assumed to be bit `f % 32` of word `f / 32`, for `f` below the number of feature bits |
| `Arm64Cpu.NoFeatureInZeroWords` | compiler/aarch64/env/OMRCPU.hpp:119-125 | when every feature word is zero, the feature query answers false for every feature |
| `Arm64Cpu.WithFeatureEffect` | compiler/aarch64/env/OMRCPU.hpp:119-125 | turning on feature `f` in the words makes the query true for `f` and leaves every other feature's answer unchanged |
| `A64Branch.Displacement` | compiler/aarch64/env/OMRCPU.hpp:67-69 | every B/BL immediate encodes a multiple of 4 in [-2^27, 2^27) |
| `A64Branch.Encode` | compiler/aarch64/env/OMRCPU.hpp:83-86 | an immediate is returned iff the displacement is encodable, and the returned immediate decodes to that displacement |
| `A64Branch.EncodeDisplacement` | compiler/aarch64/env/OMRCPU.hpp:83-86 | re-encoding the displacement of an immediate gives back that immediate, so each immediate encodes a distinct displacement |
| `A64Branch.EncodableIff` | compiler/aarch64/env/OMRCPU.hpp:83-86 | the encodable displacements are exactly the multiples of 4 from -2^27 to 2^27 - 4 |

## Left out

- `fvtest/compilertriltest/VectorTest.cpp`: it parses textual IR, JIT-compiles it with a compiler that is not part of this model, calls the generated code through function pointers and compares floating-point results. None of that is modelled.
- `getProcessorName`: its body and the table of processor names are in a source file that is not part of this model.
- `Arm64Cpu.CPU.SupportsFeature`: its body is in a source file that is not part of this model. It is modelled by assumption as bit `f % 32` of feature word `f / 32`. It requires `f` to be below the number of feature bits, because what happens for a larger `f` is not visible.
- `Arm64Cpu.FeatureWords`: the value 5 of `OMRPORT_SYSINFO_FEATURES_SIZE` comes from the port library header, which is not part of this model. No proof depends on the value.
- `Arm64Cpu.Processor`: only `OMR_PROCESSOR_ARM64_V8_A` is named. The other processor identifiers are defined in the port library header, which is not part of this model.
- `Arm64Cpu.CPU.FromDescription`: the base class `OMR::CPU` and its constructors are not part of this model. Construction from a description is modelled by assumption as storing that description unchanged. The base default constructor is taken to leave nothing that the ARM64 constructor does not overwrite.
- `Arm64Cpu.CPU.IsTargetWithinUnconditionalBranchImmediateRange`: addresses and their difference are mathematical integers. The `intptr_t` overflow of `target - source` for addresses far apart is not modelled.
- The connector macros, `OMR_EXTENSIBLE` and the operating-system probe that fills in the description in production are not modelled.
