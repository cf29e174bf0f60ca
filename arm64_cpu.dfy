/** The AArch64 processor description of the JIT compiler (class OMR::ARM64::CPU):
    which processor the code is generated for, its feature bits, and the
    capability and branch-range questions that instruction selection asks. */
module Arm64Cpu {
  import Int32
  import A64Branch

  /** Number of 32-bit words of feature bits in a processor description
      (OMRPORT_SYSINFO_FEATURES_SIZE of the port library). */
  const FeatureWords: int := 5
  const BitsPerWord: int := 32

  /** Processor identifiers. The port library enumerates many; the descriptor
      names only the ARMv8-A one, the rest are told apart by their number. */
  datatype Processor = Arm64V8A | OtherProcessor(id: nat)

  /** The value of an OMRProcessorDesc: the processor reported, the processor
      actually present, and the feature words. */
  datatype ProcessorDesc = ProcessorDesc(processor: Processor, physicalProcessor: Processor, features: seq<bv32>)

  /** A description with the fixed number of feature words. */
  predicate WellFormed(desc: ProcessorDesc) {
    |desc.features| == FeatureWords
  }

  /** The word with only bit `bit` set. */
  function Bit(bit: int): bv32
    requires 0 <= bit < BitsPerWord
  {
    (1 as bv32) << bit
  }

  /** Feature `feature` is bit `feature % 32` of word `feature / 32`. */
  function HasFeature(words: seq<bv32>, feature: int): bool
    requires 0 <= feature < |words| * BitsPerWord
  {
    words[feature / BitsPerWord] & Bit(feature % BitsPerWord) != 0
  }

  /** The words with feature `feature` turned on, as a probe records it. */
  function WithFeature(words: seq<bv32>, feature: int): (r: seq<bv32>)
    requires 0 <= feature < |words| * BitsPerWord
    ensures |r| == |words|
  {
    var w := feature / BitsPerWord;
    words[w := words[w] | Bit(feature % BitsPerWord)]
  }

  /** Words that are all zero hold no feature. */
  lemma NoFeatureInZeroWords(words: seq<bv32>, feature: int)
    requires forall i :: 0 <= i < |words| ==> words[i] == 0
    requires 0 <= feature < |words| * BitsPerWord
    ensures !HasFeature(words, feature)
  {
  }

  /** Turning one feature on turns on that feature and no other. */
  lemma WithFeatureEffect(words: seq<bv32>, feature: int, other: int)
    requires 0 <= feature < |words| * BitsPerWord
    requires 0 <= other < |words| * BitsPerWord
    ensures HasFeature(WithFeature(words, feature), other) <==> other == feature || HasFeature(words, other)
  {
    if other / BitsPerWord == feature / BitsPerWord {
      WithFeatureSameWord(words, feature, other);
    } else {
      WithFeatureOtherWord(words, feature, other);
    }
  }

  /** A feature held in the word that changes is on iff it is the one turned on
      or it was on before. */
  lemma WithFeatureSameWord(words: seq<bv32>, feature: int, other: int)
    requires 0 <= feature < |words| * BitsPerWord
    requires 0 <= other < |words| * BitsPerWord
    requires other / BitsPerWord == feature / BitsPerWord
    ensures HasFeature(WithFeature(words, feature), other) <==> other == feature || HasFeature(words, other)
  {
    var w, b, c := feature / BitsPerWord, feature % BitsPerWord, other % BitsPerWord;
    assert WithFeature(words, feature)[w] == words[w] | Bit(b);
    SameWordAndBit(feature, other);
    BitInWordWithBit(words[w], b, c);
  }

  /** A feature held in another word keeps its state. */
  lemma WithFeatureOtherWord(words: seq<bv32>, feature: int, other: int)
    requires 0 <= feature < |words| * BitsPerWord
    requires 0 <= other < |words| * BitsPerWord
    requires other / BitsPerWord != feature / BitsPerWord
    ensures other != feature
    ensures HasFeature(WithFeature(words, feature), other) == HasFeature(words, other)
  {
    assert WithFeature(words, feature)[other / BitsPerWord] == words[other / BitsPerWord];
  }

  /** Two feature numbers are equal iff they share their word and their bit. */
  lemma SameWordAndBit(f: int, g: int)
    requires 0 <= f && 0 <= g
    requires f / BitsPerWord == g / BitsPerWord
    ensures f % BitsPerWord == g % BitsPerWord <==> f == g
  {
  }

  /** Setting bit `b` of a word sets bit `b` and leaves every other bit as it was. */
  lemma BitInWordWithBit(x: bv32, b: int, c: int)
    requires 0 <= b < BitsPerWord && 0 <= c < BitsPerWord
    ensures (x | Bit(b)) & Bit(c) != 0 <==> b == c || x & Bit(c) != 0
  {
  }

  class CPU {
    var processor: Processor
    var physicalProcessor: Processor
    var features: array<bv32>

    /** The feature array has the fixed number of words. */
    ghost predicate Valid()
      reads this
    {
      features.Length == FeatureWords
    }

    /** The description this descriptor holds, as a value. */
    function Description(): ProcessorDesc
      reads this, features
    {
      ProcessorDesc(processor, physicalProcessor, features[..])
    }

    /** The default description: ARMv8-A both as reported and as present, and
        every feature word cleared, so no feature is claimed. */
    constructor ()
      ensures Valid() && fresh(features)
      ensures processor == Arm64V8A && physicalProcessor == processor
      ensures forall i :: 0 <= i < features.Length ==> features[i] == 0
      ensures forall f :: 0 <= f < FeatureWords * BitsPerWord ==> !SupportsFeature(f)
    {
      processor := Arm64V8A;
      physicalProcessor := Arm64V8A;
      var words := new bv32[FeatureWords];
      var i := 0;
      while i < FeatureWords
        invariant 0 <= i <= FeatureWords
        invariant forall j :: 0 <= j < i ==> words[j] == 0
      {
        words[i] := 0;
        i := i + 1;
      }
      features := words;
      new;
      forall f | 0 <= f < FeatureWords * BitsPerWord
        ensures !SupportsFeature(f)
      {
        NoFeatureInZeroWords(features[..], f);
      }
    }

    /** A descriptor holding a supplied description unchanged. */
    constructor FromDescription(desc: ProcessorDesc)
      requires WellFormed(desc)
      ensures Valid() && fresh(features)
      ensures Description() == desc
    {
      processor := desc.processor;
      physicalProcessor := desc.physicalProcessor;
      var words := new bv32[FeatureWords];
      var i := 0;
      while i < FeatureWords
        invariant 0 <= i <= FeatureWords
        invariant forall j :: 0 <= j < i ==> words[j] == desc.features[j]
      {
        words[i] := desc.features[i];
        i := i + 1;
      }
      assert words[..] == desc.features;
      features := words;
    }

    /** Square root is always done in hardware. */
    function SupportsHardwareSqrt(): (r: bool)
      ensures r
    {
      true
    }

    /** The farthest forward byte displacement a B or BL instruction reaches:
        the literal 0x07fffffc returned as int32_t, which it fits unchanged. */
    function MaxUnconditionalBranchImmediateForwardOffset(): (r: int)
      ensures Int32.InRange(r)
      ensures r > 0 && r % A64Branch.InstructionBytes == 0
      ensures r < 2 * A64Branch.Imm26Values <= r + A64Branch.InstructionBytes
    {
      Int32.ToInt32Identity(0x07ff_fffc);
      Int32.ToInt32(0x07ff_fffc)
    }

    /** The farthest backward byte displacement a B or BL instruction reaches,
        a negative number: the literal 0xf8000000 converted to int32_t. */
    function MaxUnconditionalBranchImmediateBackwardOffset(): (r: int)
      ensures Int32.InRange(r)
      ensures r < 0 && r % A64Branch.InstructionBytes == 0
      ensures r == -2 * A64Branch.Imm26Values
    {
      Int32.ToInt32(0xf800_0000)
    }

    /** True iff the displacement from `sourceAddress` to `targetAddress` lies
        between the two limits, both included. */
    predicate IsTargetWithinUnconditionalBranchImmediateRange(targetAddress: int, sourceAddress: int)
      ensures IsTargetWithinUnconditionalBranchImmediateRange(targetAddress, sourceAddress)
        <==> -2 * A64Branch.Imm26Values <= targetAddress - sourceAddress
               <= 2 * A64Branch.Imm26Values - A64Branch.InstructionBytes
    {
      var displacement := targetAddress - sourceAddress;
      MaxUnconditionalBranchImmediateBackwardOffset() <= displacement <= MaxUnconditionalBranchImmediateForwardOffset()
    }

    /** Rotation of 32-bit integers is available, except when it must be a
        rotation to the left: only rotate-right exists. */
    function SupportsHardware32bitRotate(requireRotateToLeft: bool := false): (r: bool)
      ensures r <==> !requireRotateToLeft
    {
      !requireRotateToLeft
    }

    /** Rotation of 64-bit integers is available, except when it must be a
        rotation to the left: only rotate-right exists. */
    function SupportsHardware64bitRotate(requireRotateToLeft: bool := false): (r: bool)
      ensures r <==> !requireRotateToLeft
    {
      !requireRotateToLeft
    }

    /** True iff the description has feature bit `feature` set: bit
        `feature % 32` of feature word `feature / 32`. */
    function SupportsFeature(feature: int): (r: bool)
      reads this, features
      requires Valid()
      requires 0 <= feature < FeatureWords * BitsPerWord
      ensures r <==> features[feature / BitsPerWord] & Bit(feature % BitsPerWord) != 0
    {
      HasFeature(features[..], feature)
    }
  }

  /** For word-aligned displacements the range check answers exactly whether a
      B or BL instruction can encode the branch. */
  lemma RangeIffEncodable(cpu: CPU, targetAddress: int, sourceAddress: int)
    requires (targetAddress - sourceAddress) % A64Branch.InstructionBytes == 0
    ensures cpu.IsTargetWithinUnconditionalBranchImmediateRange(targetAddress, sourceAddress)
        <==> A64Branch.Encodable(targetAddress - sourceAddress)
  {
    A64Branch.EncodableIff(targetAddress - sourceAddress);
  }

  /** Called with its default argument, each rotate query answers true; asked
      for rotate-left, it answers false. */
  lemma RotateDefaults(cpu: CPU)
    ensures cpu.SupportsHardware32bitRotate() && !cpu.SupportsHardware32bitRotate(true)
    ensures cpu.SupportsHardware64bitRotate() && !cpu.SupportsHardware64bitRotate(true)
  {
  }

  /** The backward limit is a signed lower bound: read as a magnitude,
      `sourceAddress - targetAddress <= backward` would hold for no backward
      branch at all. */
  lemma BackwardLimitIsNotAMagnitude(cpu: CPU, targetAddress: int, sourceAddress: int)
    requires targetAddress < sourceAddress
    ensures !(sourceAddress - targetAddress <= cpu.MaxUnconditionalBranchImmediateBackwardOffset())
  {
  }

  /** Both limits are included and the displacements just past them are not. */
  lemma RangeBoundaries(cpu: CPU, sourceAddress: int)
    ensures var forward := cpu.MaxUnconditionalBranchImmediateForwardOffset();
      cpu.IsTargetWithinUnconditionalBranchImmediateRange(sourceAddress + forward, sourceAddress)
      && !cpu.IsTargetWithinUnconditionalBranchImmediateRange(sourceAddress + forward + 1, sourceAddress)
      && !cpu.IsTargetWithinUnconditionalBranchImmediateRange(sourceAddress + forward + A64Branch.InstructionBytes, sourceAddress)
    ensures var backward := cpu.MaxUnconditionalBranchImmediateBackwardOffset();
      cpu.IsTargetWithinUnconditionalBranchImmediateRange(sourceAddress + backward, sourceAddress)
      && !cpu.IsTargetWithinUnconditionalBranchImmediateRange(sourceAddress + backward - 1, sourceAddress)
      && !cpu.IsTargetWithinUnconditionalBranchImmediateRange(sourceAddress + backward - A64Branch.InstructionBytes, sourceAddress)
  {
  }

  /** The word-aligned displacements from `lo` to `hi`, both included. */
  ghost function AlignedBetween(lo: int, hi: int): set<int> {
    set d | lo <= d <= hi && d % A64Branch.InstructionBytes == 0
  }

  /** Between two aligned bounds lie (hi - lo) / 4 + 1 aligned displacements. */
  lemma {:induction false} AlignedBetweenCount(lo: int, hi: int)
    requires lo % A64Branch.InstructionBytes == 0 && hi % A64Branch.InstructionBytes == 0
    requires lo <= hi + A64Branch.InstructionBytes
    ensures |AlignedBetween(lo, hi)| == (hi - lo) / A64Branch.InstructionBytes + 1
    decreases hi - lo
  {
    if lo == hi + A64Branch.InstructionBytes {
      assert AlignedBetween(lo, hi) == {};
    } else {
      var step := A64Branch.InstructionBytes;
      AlignedBetweenCount(lo, hi - step);
      assert AlignedBetween(lo, hi) == AlignedBetween(lo, hi - step) + {hi};
      assert (hi - lo) / step == (hi - step - lo) / step + 1;
    }
  }

  /** The range check admits exactly 2^26 word-aligned displacements, one per
      value of the 26-bit immediate field. */
  lemma RangeCoversImmediateField(cpu: CPU)
    ensures |AlignedBetween(cpu.MaxUnconditionalBranchImmediateBackwardOffset(),
                            cpu.MaxUnconditionalBranchImmediateForwardOffset())| == A64Branch.Imm26Values
  {
    AlignedBetweenCount(cpu.MaxUnconditionalBranchImmediateBackwardOffset(),
                        cpu.MaxUnconditionalBranchImmediateForwardOffset());
  }
}
