/** The immediate operand of the A64 unconditional branch instructions B and BL
    (Arm Architecture Reference Manual for A-profile, chapter C6, "B" and "BL"):
    a 26-bit field imm26 whose branch offset is SignExtend(imm26:'00'), that is
    imm26 read as a signed number and scaled by the 4-byte instruction size.
    This is the reference against which the descriptor's branch limits are checked. */
module A64Branch {

  datatype Option<T> = None | Some(value: T)

  /** The number of values the 26-bit immediate field holds, 2^26. */
  const Imm26Values: int := 0x400_0000

  /** Bytes per A64 instruction: offsets count whole instructions. */
  const InstructionBytes: int := 4

  /** True iff `imm26` fits the field. */
  predicate IsField(imm26: int) {
    0 <= imm26 < Imm26Values
  }

  /** The field read as a two's-complement signed number. */
  function SignExtend(imm26: int): (v: int)
    requires IsField(imm26)
    ensures -Imm26Values / 2 <= v < Imm26Values / 2
    ensures (v - imm26) % Imm26Values == 0
  {
    if imm26 < Imm26Values / 2 then imm26 else imm26 - Imm26Values
  }

  /** The byte displacement, from the branch to its target, encoded by `imm26`. */
  function Displacement(imm26: int): (d: int)
    requires IsField(imm26)
    ensures d % InstructionBytes == 0
    ensures -2 * Imm26Values <= d < 2 * Imm26Values
  {
    InstructionBytes * SignExtend(imm26)
  }

  /** True iff some B/BL immediate encodes the byte displacement `d`. */
  ghost predicate Encodable(d: int) {
    exists imm26 :: IsField(imm26) && Displacement(imm26) == d
  }

  /** The immediate encoding the byte displacement `d`, or None when no B/BL
      instruction can branch by `d`. */
  function Encode(d: int): (r: Option<int>)
    ensures r.Some? <==> Encodable(d)
    ensures r.Some? ==> IsField(r.value) && Displacement(r.value) == d
  {
    if d % InstructionBytes == 0 && -2 * Imm26Values <= d < 2 * Imm26Values then
      var imm26 := (d / InstructionBytes) % Imm26Values;
      assert Displacement(imm26) == d;
      Some(imm26)
    else
      assert !Encodable(d) by {
        forall imm26 | IsField(imm26) ensures Displacement(imm26) != d {
        }
      }
      None
  }

  /** Each immediate is the only one encoding its displacement: decoding and
      re-encoding gives the field back. */
  lemma EncodeDisplacement(imm26: int)
    requires IsField(imm26)
    ensures Encode(Displacement(imm26)) == Some(imm26)
  {
  }

  /** The encodable displacements are exactly the word-aligned ones in
      [-2^27, 2^27 - 4]. */
  lemma EncodableIff(d: int)
    ensures Encodable(d)
      <==> (d % InstructionBytes == 0 && -2 * Imm26Values <= d <= 2 * Imm26Values - InstructionBytes)
  {
    if Encodable(d) {
      var imm26 :| IsField(imm26) && Displacement(imm26) == d;
    } else {
      assert Encode(d).None?;
    }
  }
}
