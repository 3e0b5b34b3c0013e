# A verified model of the rv8 toolchain core

rv8 is a RISC-V toolchain and simulator.  This project models the parts of it whose correctness is
arithmetic, combinatorial or spread over a run, and proves what they compute, for every input:

- **Decoder compiler.**  `DecoderTree`, `DecoderGen`, `DecoderTables`, `SwitchExpression`: bit-field specifications
  become mask/match pairs, and a list of opcodes becomes a decision tree.  The tree is read as the switch
  statements printed for it, and the shifts and masks they switch on are proved to compute the tree's values.
  The generator object is proved to build the tree, and the tree to decode exactly as stated, including
  the case where it does not decode a matching word.
- **Operand encodings and codecs.**  `Operands`, `OperandTable`, `Codecs`, `CodecRoundTrip`, `BaseFormats`,
  `Layouts`, `CodecLayouts`: the bit-permutation notation with its masks and shifts, every operand and every
  codec of the instruction set, where each of them has its fields, round trips in both directions, and the one
  codec (CS) that loses a field.
- **Instruction stream.**  `InstBuffer`: appending instructions of 2, 4, 6 or 8 bytes, and the sweep that finds
  them again.
- **Constant materialisation.**  `LoadImm`, `Emit`: the recursive `load_imm`, the value its code leaves in the
  register, and the whole way from value to bytes to disassembly to execution.
- **Labels and linking.**  `Labels`, `Relocation`, `BaseIsa`, `Link`, `LinkMeaning`, `LinkExamples`: local labels,
  section layout, relocation in place, what relocated instructions do when executed, and programs that are not
  linked as meant.
- **Multi-word multiplication.**  `Multiply`: the Babbage multiply-high routines and the multiplication tower, for
  every even width.
- **Static address recovery.**  `AddressPairs`: the backward scan of the disassembler, sound against execution over
  a whole listing.
- **Pseudoinstructions and compression.**  `Constraints`, `Pseudos`, `Compression`: operand constraints, the lookups
  that use them, the words that pseudoinstructions stand for, and which compressed instructions lose something.
- **Process image.**  `ProcessImage`, `ProxyStack`: ELF loading and brk as one state machine, and the initial stack
  as a serializer.

`Bits` holds the machine arithmetic all of it rests on: words are integers, and every bit operation is
characterised by the bits of its result.

Where a property that the code seems to promise is false, the code is modelled as it is, a lemma gives the
input that shows it, and another lemma gives the exact condition under which the property holds:

| behaviour | counterexample | exact condition |
|---|---|---|
| a word may decode to an opcode it does not match | `DecoderTree.DecoderIsNotSound` | `DecoderTables.SoundWhen`, for all words; `DecoderTree.DecodedOpcodeMatches`, for each |
| a word may match an opcode and not decode to it | `DecoderTables.DecoderIsNotComplete` | `DecoderTables.CompleteWhen`, for all words; `DecoderTree.MatchingWordArrives`, for each |
| `load_imm` may load a value 4096·2^s too small | `LoadImm.LoadImmIsNotExact` | `LoadImm.ExactlyWhen` |
| `encode_cs` writes rd where `decode_cs` reads rs2 | `CodecRoundTrip.CsLosesRs2` | `CodecRoundTrip.CsRoundTrip` |
| a label may be replaced in the offset map | `Labels.ReplacedLabelIsLost` | `Labels.FoundUnlessReplaced`, `Labels.FoundBackUnlessReplaced` |
| `0f` and `0b` find labels that have no number | `Labels.NamedLabelsAnswerToZero` | `Labels.ZeroForward`, `Labels.ZeroBackward`; other numbers never do: `Labels.NumberedAnswers` |
| a %pcrel_lo lookup mixes absolute and relative offsets, and takes the high part's name as it stands | `LinkExamples.LowPartGoesWrong`, `LinkExamples.LocalHighIsTooLate` | `LinkMeaning.PcrelLowFollowsHigh` within a section, `LinkMeaning.PcrelLowExactly` for any two |
| relocating a compressed instruction may overwrite the two bytes after it | `LinkExamples.CjOverwritesReturn`, `LinkExamples.CjLosesNext` | `Relocation.CompressedSiteKeepsNext`, whatever the bytes are; `Relocation.CompressedSite`, for given bytes |
| an address recovered through x0, or with 32-bit overflow, may be wrong | `AddressPairs.X0IsMisread`, `AddressPairs.LuiWraps` | `AddressPairs.BaseX0`, `AddressPairs.RecoveredIsComputed` |
| setting constraints does not always establish them | `Constraints.OrderMatters` | `Constraints.SetIsAcceptedWhen` |
| rdinstreth is encoded, and comes back, as rdcycleh | `Pseudos.InstretReadsCycle` | `Constraints.UnpseudoRoundTrip` |
| an instruction may be compressed to one that cannot hold its operands | `Compression.LiLosesForty`, `Compression.AdjustLosesThirtySix`, `Compression.JrLosesOffset` | `Compression.RowExactly`, for every row; `Compression.CompressKeepsWhen`, for the row that is chosen |
| brk in the last page overflows | `ProcessImage.BrkOverflows` | `ProcessImage.BrkExactly` |
| brk accepts addresses below the heap | `ProcessImage.BreakBelowHeap` | `ProcessImage.BreakInHeapWhen` |
| the first stack pointer need not be 16-byte aligned | `ProxyStack.NotAlwaysAligned` | `ProxyStack.AlignedWhen` |

## Model

| member | source | states |
|---|---|---|
| `DecoderGen.MapMeaning` | src/app/rv-meta.cc:109-122 | the mask/match pair of a field list accepts exactly the words that have every field, for all words, if and only if the fields do not contradict each other; the match lies within the mask |
| `DecoderGen.HoldsMeans` | src/app/rv-meta.cc:109-122 | a word has a field of the specification exactly when its bits from msb down to lsb are the value, cut to their number |
| `DecoderTree.MatchesMeans` | src/app/rv-meta.cc:109-122 | on numbers, a word matches when word & mask == match |
| `DecoderGen.RvGen.GenerateMap` | src/app/rv-meta.cc:109-122 | the loops leave in every opcode the mask and match of its fields |
| `DecoderGen.RvGen.GenerateCodec` | src/app/rv-meta.cc:124-136 | the root is the tree of the opcodes that are not pseudo-instructions |
| `DecoderGen.RvGen.GenerateCodecNode` | src/app/rv-meta.cc:138-212 | on opcodes that share one done word the node builder returns the specified tree, terminates, and leaves the done words of all other opcodes alone |
| `DecoderGen.GroupsPartition` | src/app/rv-meta.cc:162-191 | at every node the child lists partition the parent list with multiplicity |
| `DecoderGen.GroupsKeepOrder` | src/app/rv-meta.cc:162-191 | and keep its order |
| `DecoderGen.PathsAreShort` | src/app/rv-meta.cc:138-212 | bits examined on any descent are pairwise different, so the tree has at most 32 levels |
| `DecoderTree.ChosenAreFresh` | src/app/rv-meta.cc:141-160 | a node that is not a leaf uses at least one bit that its path has not used |
| `DecoderTree.ColumnsAreWidest` | src/app/rv-meta.cc:141-160 | a node switches on exactly the unused bits below 32 that are masked by the most opcodes of its list, counted one by one, highest bit first |
| `DecoderTree.NoneIsPartial` | src/app/rv-meta.cc:141-178 | a node has bits and files no opcode under the default if and only if some unused bit is masked by every opcode of its list |
| `DecoderTree.ExtractInjective` | src/app/rv-meta.cc:165-173 | two words take the same switch value exactly when they agree on the node's bits |
| `DecoderTree.DecoderExact` | src/app/rv-meta.cc:138-212 | an opcode is among those a word decodes to if and only if the word has its pattern on the compared bits and is never captured by an explicit case where the opcode is partially masked |
| `DecoderTree.MaskIsUsedUp` | src/app/rv-meta.cc:162-212 | every masked bit of an opcode is either compared or used up uncompared, never both |
| `DecoderTree.MatchingWordArrives` | src/app/rv-meta.cc:162-211 | a word matching an opcode leaves its path exactly when the opcode is shadowed at a partially masked node |
| `DecoderTree.DecodedOpcodeMatches` | src/app/rv-meta.cc:162-211 | an opcode that a word decodes to matches it exactly when its unchecked bits agree |
| `DecoderTree.ExplicitLeaf` | src/app/rv-meta.cc:138-212 | a leaf reached by explicit cases only is reached exactly by the words with word & mask == match |
| `DecoderTree.ExplicitLeafIsUniform` | src/app/rv-meta.cc:138-212 | all opcodes at such a leaf have identical mask and match |
| `DecoderTree.DistinctOpcodesDecodeAlone` | src/app/rv-meta.cc:138-212 | distinct opcodes get singleton leaves: the word decodes to that opcode alone if and only if it matches |
| `DecoderTree.DecoderIsNotSound` | src/app/rv-meta.cc:175-178 | two opcodes that mask different columns: a word decodes to one it does not match |
| `DecoderTables.CompleteWhen` | src/app/rv-meta.cc:138-212 | every word that matches an opcode decodes to it, if and only if at no node of its path where it is partially masked another opcode is fully masked and agrees with it |
| `DecoderTables.SoundWhen` | src/app/rv-meta.cc:138-212 | every word that decodes to an opcode matches it, if and only if no word decodes to it or what each partially masked node leaves to the default agrees with it |
| `DecoderTables.SharingIsExact` | src/app/rv-meta.cc:138-212 | where at every node of its path the listed opcodes share an unused masked bit, the words that decode to an opcode are exactly those that match it |
| `DecoderTables.DecoderIsNotComplete` | src/app/rv-meta.cc:175-178 | a word that matches one opcode is captured by the explicit case of another |
| `SwitchExpression.BitmaskToBitrange` | src/model/model.cc:306-320 | merging bits into ranges loses no bit, keeps their order, and leaves no two neighbours to merge |
| `SwitchExpression.FormatBitmask` | src/model/model.cc:322-346 | the printed shifts and masks evaluate, for every instruction word, to the switch value of the tree |
| `SwitchExpression.EvalIsExtract` | src/model/model.cc:322-346 | the same as a lemma on the ranges |
| `SwitchExpression.NodeBitsFall` | src/app/rv-meta.cc:157-160 | the bits of every node are listed highest first, as the expression needs them |
| `Multiply.CombineExact` | src/app/test-mul.cc:264-270 | the carry step loses no bit of the weighted sum of the partial products, for every width |
| `Multiply.NegateExact` | src/asm/alu.h:61-68 | the borrow and xor fix-up is two's complement negation of the double word, zero included |
| `Multiply.MagnitudeIsAbs` | src/asm/alu.h:45-48 | the branch-free magnitude is the absolute value, the minimum value included |
| `Multiply.SignFixup` | src/app/test-mul.cc:326-334 | negating the product of the magnitudes by the sign of the product gives the signed product |
| `Multiply.MulHighUnsigned` | src/asm/alu.h:12-33 | mulhu is the floored quotient of the unsigned product by 2^N |
| `Multiply.MulHigh` | src/asm/alu.h:37-69 | mulh is the floored quotient of the signed product by 2^N |
| `Multiply.MulHighSignedUnsigned` | src/asm/alu.h:73-100 | mulhsu is the floored quotient of the signed by unsigned product by 2^N |
| `Multiply.ShiftAdd` | src/app/test-mul.cc:273-297 | the shift-add loops return hi and lo with hi·2^w + lo = x·y |
| `Multiply.MulUnsigned` | src/app/test-mul.cc:248-271 | the tower returns hi·2^N + lo = x·y at any height |
| `Multiply.MulSigned` | src/app/test-mul.cc:302-335 | mul returns the full two's complement product |
| `Multiply.MulSignedUnsigned` | src/app/test-mul.cc:340-370 | mulsu returns the full signed by unsigned product |
| `Operands.EncodeBit` | src/asm/types.h:250-271 | encoding sets exactly the instruction bits that the wiring assigns to one bits of the value |
| `Operands.EncodeBound` | src/asm/types.h:250-271 | the encoding of a well-formed operand fits 32 bits |
| `Operands.RoundTrip` | src/asm/types.h:250-314 | decoding a word that holds the encoding of v gives v if and only if v is representable |
| `Operands.DecodeThenEncode` | src/asm/types.h:250-314 | encoding what was decoded restores the operand's instruction bits and sets no others |
| `OperandTable.AllWellFormed` | src/asm/operands.h:10-65 | every typedef is well formed: segments filled, no bit twice, sign bit encoded |
| `Codecs.SlotIsHeld` | src/asm/encode.h:10-313 | in the or of all operands each operand keeps its own bits |
| `Codecs.EncodeSlotsOnly` | src/asm/encode.h:10-313 | an encoder sets only bits of its operands |
| `Codecs.AllFormatsOk` | src/asm/decode.h:10-420 | in every codec but CS the operands do not overlap and what the decoder reads is what the encoder writes, from a field that the asserts make equal |
| `Layouts.SumLayout` | src/asm/types.h:250-314 | for any well-formed operand, encoding is the sum of the bit fields of its wiring, and decoding the sum of those of the reverse wiring |
| `CodecLayouts.EncodeCons` | src/asm/encode.h:10-313 | the or of operands that do not overlap is their sum |
| `CodecLayouts.NoneLayout` | src/asm/encode.h:11-11 | NONE: the encoding as a sum of bit fields of the record in their places, and the record that the decoder of any word makes, field by field, with its constants and signs |
| `CodecLayouts.CiNoneLayout` | src/asm/encode.h:14-20 | CI_NONE: the encoding as a sum of bit fields of the record in their places, and the record that the decoder of any word makes, field by field, with its constants and signs |
| `CodecLayouts.CrLayout` | src/asm/encode.h:23-27 | CR: the encoding as a sum of bit fields of the record in their places, and the record that the decoder of any word makes, field by field, with its constants and signs |
| `CodecLayouts.CrMvLayout` | src/asm/encode.h:30-34 | CR_MV: the encoding as a sum of bit fields of the record in their places, and the record that the decoder of any word makes, field by field, with its constants and signs |
| `CodecLayouts.CrJalrLayout` | src/asm/encode.h:37-41 | CR_JALR: the encoding as a sum of bit fields of the record in their places, and the record that the decoder of any word makes, field by field, with its constants and signs |
| `CodecLayouts.CrJrLayout` | src/asm/encode.h:44-48 | CR_JR: the encoding as a sum of bit fields of the record in their places, and the record that the decoder of any word makes, field by field, with its constants and signs |
| `CodecLayouts.CiLayout` | src/asm/encode.h:51-55 | CI: the encoding as a sum of bit fields of the record in their places, and the record that the decoder of any word makes, field by field, with its constants and signs |
| `CodecLayouts.CiSh5Layout` | src/asm/encode.h:58-62 | CI_SH5: the encoding as a sum of bit fields of the record in their places, and the record that the decoder of any word makes, field by field, with its constants and signs |
| `CodecLayouts.CiSh6Layout` | src/asm/encode.h:65-69 | CI_SH6: the encoding as a sum of bit fields of the record in their places, and the record that the decoder of any word makes, field by field, with its constants and signs |
| `CodecLayouts.CiLiLayout` | src/asm/encode.h:72-76 | CI_LI: the encoding as a sum of bit fields of the record in their places, and the record that the decoder of any word makes, field by field, with its constants and signs |
| `CodecLayouts.CiLuiLayout` | src/asm/encode.h:79-83 | CI_LUI: the encoding as a sum of bit fields of the record in their places, and the record that the decoder of any word makes, field by field, with its constants and signs |
| `CodecLayouts.CiLwspLayout` | src/asm/encode.h:86-90 | CI_LWSP: the encoding as a sum of bit fields of the record in their places, and the record that the decoder of any word makes, field by field, with its constants and signs |
| `CodecLayouts.CiLdspLayout` | src/asm/encode.h:93-97 | CI_LDSP: the encoding as a sum of bit fields of the record in their places, and the record that the decoder of any word makes, field by field, with its constants and signs |
| `CodecLayouts.CiLqspLayout` | src/asm/encode.h:100-104 | CI_LQSP: the encoding as a sum of bit fields of the record in their places, and the record that the decoder of any word makes, field by field, with its constants and signs |
| `CodecLayouts.Ci16spLayout` | src/asm/encode.h:107-112 | CI_16SP: the encoding as a sum of bit fields of the record in their places, and the record that the decoder of any word makes, field by field, with its constants and signs |
| `CodecLayouts.CssSwspLayout` | src/asm/encode.h:115-119 | CSS_SWSP: the encoding as a sum of bit fields of the record in their places, and the record that the decoder of any word makes, field by field, with its constants and signs |
| `CodecLayouts.CssSdspLayout` | src/asm/encode.h:122-126 | CSS_SDSP: the encoding as a sum of bit fields of the record in their places, and the record that the decoder of any word makes, field by field, with its constants and signs |
| `CodecLayouts.CssSqspLayout` | src/asm/encode.h:129-133 | CSS_SQSP: the encoding as a sum of bit fields of the record in their places, and the record that the decoder of any word makes, field by field, with its constants and signs |
| `CodecLayouts.Ciw4spnLayout` | src/asm/encode.h:136-140 | CIW_4SPN: the encoding as a sum of bit fields of the record in their places, and the record that the decoder of any word makes, field by field, with its constants and signs |
| `CodecLayouts.ClLwLayout` | src/asm/encode.h:143-146 | CL_LW: the encoding as a sum of bit fields of the record in their places, and the record that the decoder of any word makes, field by field, with its constants and signs |
| `CodecLayouts.ClLdLayout` | src/asm/encode.h:149-152 | CL_LD: the encoding as a sum of bit fields of the record in their places, and the record that the decoder of any word makes, field by field, with its constants and signs |
| `CodecLayouts.ClLqLayout` | src/asm/encode.h:155-158 | CL_LQ: the encoding as a sum of bit fields of the record in their places, and the record that the decoder of any word makes, field by field, with its constants and signs |
| `CodecLayouts.CsLayout` | src/asm/encode.h:161-165 | CS: the encoding as a sum of bit fields of the record in their places, and the record that the decoder of any word makes, field by field, with its constants and signs |
| `CodecLayouts.CsSwLayout` | src/asm/encode.h:168-171 | CS_SW: the encoding as a sum of bit fields of the record in their places, and the record that the decoder of any word makes, field by field, with its constants and signs |
| `CodecLayouts.CsSdLayout` | src/asm/encode.h:174-177 | CS_SD: the encoding as a sum of bit fields of the record in their places, and the record that the decoder of any word makes, field by field, with its constants and signs |
| `CodecLayouts.CsSqLayout` | src/asm/encode.h:180-183 | CS_SQ: the encoding as a sum of bit fields of the record in their places, and the record that the decoder of any word makes, field by field, with its constants and signs |
| `CodecLayouts.CbLayout` | src/asm/encode.h:186-189 | CB: the encoding as a sum of bit fields of the record in their places, and the record that the decoder of any word makes, field by field, with its constants and signs |
| `CodecLayouts.CbImmLayout` | src/asm/encode.h:192-196 | CB_IMM: the encoding as a sum of bit fields of the record in their places, and the record that the decoder of any word makes, field by field, with its constants and signs |
| `CodecLayouts.CbSh5Layout` | src/asm/encode.h:199-203 | CB_SH5: the encoding as a sum of bit fields of the record in their places, and the record that the decoder of any word makes, field by field, with its constants and signs |
| `CodecLayouts.CbSh6Layout` | src/asm/encode.h:206-210 | CB_SH6: the encoding as a sum of bit fields of the record in their places, and the record that the decoder of any word makes, field by field, with its constants and signs |
| `CodecLayouts.CjLayout` | src/asm/encode.h:213-216 | CJ: the encoding as a sum of bit fields of the record in their places, and the record that the decoder of any word makes, field by field, with its constants and signs |
| `CodecLayouts.CjJalLayout` | src/asm/encode.h:219-222 | CJ_JAL: the encoding as a sum of bit fields of the record in their places, and the record that the decoder of any word makes, field by field, with its constants and signs |
| `CodecLayouts.RLayout` | src/asm/encode.h:225-228 | R: the encoding as a sum of bit fields of the record in their places, and the record that the decoder of any word makes, field by field, with its constants and signs |
| `CodecLayouts.RMLayout` | src/asm/encode.h:231-234 | R_M: the encoding as a sum of bit fields of the record in their places, and the record that the decoder of any word makes, field by field, with its constants and signs |
| `CodecLayouts.RLLayout` | src/asm/encode.h:237-241 | R_L: the encoding as a sum of bit fields of the record in their places, and the record that the decoder of any word makes, field by field, with its constants and signs |
| `CodecLayouts.RALayout` | src/asm/encode.h:244-247 | R_A: the encoding as a sum of bit fields of the record in their places, and the record that the decoder of any word makes, field by field, with its constants and signs |
| `CodecLayouts.R4MLayout` | src/asm/encode.h:250-253 | R4_M: the encoding as a sum of bit fields of the record in their places, and the record that the decoder of any word makes, field by field, with its constants and signs |
| `CodecLayouts.RFLayout` | src/asm/encode.h:256-259 | R_F: the encoding as a sum of bit fields of the record in their places, and the record that the decoder of any word makes, field by field, with its constants and signs |
| `CodecLayouts.ILayout` | src/asm/encode.h:262-265 | I: the encoding as a sum of bit fields of the record in their places, and the record that the decoder of any word makes, field by field, with its constants and signs |
| `CodecLayouts.ICsrLayout` | src/asm/encode.h:268-271 | I_CSR: the encoding as a sum of bit fields of the record in their places, and the record that the decoder of any word makes, field by field, with its constants and signs |
| `CodecLayouts.ISh5Layout` | src/asm/encode.h:274-277 | I_SH5: the encoding as a sum of bit fields of the record in their places, and the record that the decoder of any word makes, field by field, with its constants and signs |
| `CodecLayouts.ISh6Layout` | src/asm/encode.h:280-283 | I_SH6: the encoding as a sum of bit fields of the record in their places, and the record that the decoder of any word makes, field by field, with its constants and signs |
| `CodecLayouts.ISh7Layout` | src/asm/encode.h:286-289 | I_SH7: the encoding as a sum of bit fields of the record in their places, and the record that the decoder of any word makes, field by field, with its constants and signs |
| `CodecLayouts.SLayout` | src/asm/encode.h:292-295 | S: the encoding as a sum of bit fields of the record in their places, and the record that the decoder of any word makes, field by field, with its constants and signs |
| `CodecLayouts.SbLayout` | src/asm/encode.h:298-301 | SB: the encoding as a sum of bit fields of the record in their places, and the record that the decoder of any word makes, field by field, with its constants and signs |
| `CodecLayouts.ULayout` | src/asm/encode.h:304-307 | U: the encoding as a sum of bit fields of the record in their places, and the record that the decoder of any word makes, field by field, with its constants and signs |
| `CodecLayouts.UjLayout` | src/asm/encode.h:310-313 | UJ: the encoding as a sum of bit fields of the record in their places, and the record that the decoder of any word makes, field by field, with its constants and signs |
| `CodecRoundTrip.FormatField` | src/asm/decode.h:10-420 | each field on its own is restored exactly when it is in range, whatever the others hold |
| `CodecRoundTrip.FormatRoundTrip` | src/asm/encode.h:10-313 | a record that passes the asserts is restored by the decoder if and only if it is in range, whatever the other bits of the word and the record before |
| `CodecRoundTrip.MatchedWordCarries` | src/asm/encode.h:10-313 | match bits clear of the operands leave the encoded record intact |
| `CodecRoundTrip.CsRoundTrip` | src/asm/encode.h:161-165 | CS restores a record exactly when it is in range and rs2 == rd |
| `CodecRoundTrip.CsLosesRs2` | src/asm/encode.h:161-165 | rd = rs1 = 8 with rs2 = 9 is not restored |
| `BaseFormats.OrdInBits` | src/asm/encode.h:261-313 | or-ing an encoding into a match word changes operand bits only |
| `BaseFormats.DecodedInRange` | src/asm/decode.h:343-420 | every decoded record is in range of its codec |
| `BaseFormats.FormatBits` | src/asm/operands.h:10-34 | the instruction bits that the operands of the 32-bit formats occupy |
| `BaseFormats.JumpRange` | src/asm/operands.h:25-25 | a jal displacement is representable exactly when it is even and fits 21 signed bits |
| `BaseFormats.BranchRange` | src/asm/operands.h:30-30 | a branch displacement is representable exactly when it is even and fits 13 signed bits |
| `InstBuffer.FetchAdded` | src/asm/codec.h:156-178 | fetching at an added instruction gives the instruction and its length, whatever follows |
| `InstBuffer.LengthEncoding` | src/asm/codec.h:135-152 | the length is 2, 4, 6 or 8 bytes, or none, by the lowest zero among bits 1 and 0, 4 to 2, 5 and 6 |
| `InstBuffer.Section.Append` | src/asm/assembler.cc:106-135 | appends the little-endian bytes |
| `InstBuffer.Section.AddInst` | src/asm/assembler.cc:137-155 | appends the bytes of the instruction by its length code |
| `InstBuffer.Sweep` | src/app/rv-histogram.cc:100-115 | sweeping a buffer of well-formed instructions recovers exactly the sequence that was added, and terminates |
| `LoadImm.BitExtendIsSigned` | src/asm/bits.h:113-119 | the xor and subtract trick is sign extension |
| `LoadImm.Ctz` | src/asm/bits.h:146-157 | the counting loop counts the trailing zeros |
| `LoadImm.PowerOfTwo` | src/asm/bits.h:158-162 | val & (val-1) is zero exactly for the powers of two |
| `LoadImm.Descends` | src/asm/assembler.cc:166-170 | the recursion loses no bit and moves to a smaller magnitude |
| `LoadImm.StepIsUnique` | src/asm/assembler.cc:166-176 | what the recursion continues with, shifts by and adds is the only way to write the value as an odd number shifted by at least 12 plus an addi immediate, in 64 bits |
| `LoadImm.RecursiveCodeLoads` | src/asm/assembler.cc:157-176 | executing load_imm_r's code leaves val less the scaled base case error in rd and every other register unchanged |
| `LoadImm.CodeLoads` | src/asm/assembler.cc:178-188 | the same for load_imm, exact on the small and the power-of-two path |
| `LoadImm.ExactlyWhen` | src/asm/assembler.cc:157-188 | load_imm loads val exactly if and only if val is small, a power of two, has bit 11 of its residue clear, or the error is shifted out |
| `LoadImm.ShiftedLoads` | src/asm/assembler.cc:157-188 | an odd 32-bit number r shifted beyond 32 bits is loaded as r, or r - 4096 when bit 11 of r is set, shifted |
| `LoadImm.CodeIsShort` | src/asm/assembler.cc:157-188 | every 64-bit value takes at most eight instructions |
| `LoadImm.OneInstructionWhen` | src/asm/assembler.cc:157-188 | a value takes one instruction if and only if it fits addi or is a 32-bit multiple of 4096 that is no power of two |
| `LoadImm.CodeIsNotIdle` | src/asm/assembler.cc:157-188 | no instruction adds zero to rd |
| `LoadImm.LoadImmIsNotExact` | src/asm/assembler.cc:159-165 | 0x1800 is loaded as 0x800 |
| `Emit.WordRoundTrip` | src/asm/jit.cc:25-295 | an emitted lui, addi or slli is four bytes long and decodes to itself |
| `Emit.LuiWord` | src/asm/jit.cc:25-35 | the word of lui is 0x37 + 2^7 rd + imm, for every legal operand |
| `Emit.AddiWord` | src/asm/jit.cc:220-231 | the word of addi is 0x13 + 2^7 rd + 2^15 rs1 + 2^20 imm, with imm cut to 12 bits |
| `Emit.SlliWord` | src/asm/jit.cc:286-296 | the word of slli is 0x1013 + 2^7 rd + 2^15 rs1 + 2^20 shamt |
| `Emit.LoadImmR` | src/asm/assembler.cc:157-176 | emits the bytes of the specified code |
| `Emit.LoadImmediate` | src/asm/assembler.cc:178-188 | emits the bytes of the specified code |
| `Emit.AssembleAndRun` | src/asm/assembler.cc:157-188 | sweeping, disassembling and running what load_imm wrote loads the stated value, for every 64-bit val |
| `Labels.DecimalRoundTrip` | src/asm/assembler.cc:254-254 | decimal numerals read back as their number, so they are injective |
| `Labels.LocalNamesDiffer` | src/asm/assembler.cc:254-254 | the names tried for one number differ in every round |
| `Labels.LocalReference` | src/asm/assembler.cc:61-69 | the numeral of n with f or b is recognised as local and parsed as n |
| `Labels.LargeReference` | src/asm/assembler.cc:216-231 | every numeral: above 63 bits it wraps, and from 2^64 on it means -1 |
| `Labels.OtherNames` | src/asm/assembler.cc:216-231 | a name that is not digits with f or b is looked up as it stands |
| `Labels.LocalNamesCollide` | src/asm/assembler.cc:250-263 | the first name of one number can be a later name of another |
| `Labels.NearestIsUnique` | src/asm/assembler.cc:196-214 | a local reference has at most one meaning |
| `Labels.ResolvesOnce` | src/asm/assembler.cc:216-231 | no two outcomes of a lookup are both right |
| `Labels.FoundUnlessReplaced` | src/asm/assembler.cc:196-243 | whatever the forward search answers: it is at the nearest label with the number if and only if the last label added at that offset has the number |
| `Labels.FoundBackUnlessReplaced` | src/asm/assembler.cc:206-243 | the same for the backward search |
| `Labels.ReplacedLabelIsLost` | src/asm/assembler.cc:234-243 | a named label at the place of a numbered one hides it from the search |
| `Labels.NumberedAnswers` | src/asm/assembler.cc:196-263 | a number other than 0 is answered only by labels made with add_label of that number |
| `Labels.ZeroForward` | src/asm/assembler.cc:196-204 | 0f is answered by a label made with the number 0 if and only if one follows with no indexed name or constant between |
| `Labels.ZeroBackward` | src/asm/assembler.cc:206-214 | 0b is answered by a label made with the number 0 if and only if one precedes with no indexed name or constant between |
| `Labels.NamedLabelsAnswerToZero` | src/asm/assembler.h:38-47 | a named label is found by 0f |
| `Labels.LabelTable.AddLabel` | src/asm/assembler.cc:234-243 | refuses a known name, and otherwise enters the label in both maps, the index holding the last label at each offset |
| `Labels.LabelTable.AddConstant` | src/asm/assembler.cc:265-274 | the same for constants |
| `Labels.LabelTable.FreeName` | src/asm/assembler.cc:250-263 | the loop ends with the first name of the series that is free |
| `Labels.LabelTable.AddLocal` | src/asm/assembler.cc:250-263 | always ends with a fresh label that carries the number |
| `Labels.LabelTable.LookupForward` | src/asm/assembler.cc:196-204 | the nearest indexed label with the number strictly after the site, or none exists; after any history of additions it was made with that number unless the number is 0 |
| `Labels.LabelTable.LookupBackward` | src/asm/assembler.cc:206-214 | the nearest indexed label with the number at or before the site, or none exists; after any history of additions it was made with that number unless the number is 0 |
| `Labels.LabelTable.Lookup` | src/asm/assembler.cc:216-231 | dispatches numerals with f or b to the local searches and other names to the name map |
| `Relocation.PartsAddUp` | src/asm/assembler.cc:362-377 | the low part is in [-2048, 2047], the high part is a 32-bit multiple of 4096, they add up modulo 2^32, and exactly if and only if the value plus 0x800 fits 32 signed bits |
| `Relocation.PartsOn64` | src/asm/assembler.cc:362-377 | they add up modulo 2^64 if and only if the value, read as a signed 64-bit number, plus 0x800 fits 32 signed bits |
| `Relocation.ReencodedOpcode` | src/asm/assembler.cc:327-335 | the re-encoded word is decoded as the same instruction |
| `Relocation.ReencodedFields` | src/asm/assembler.cc:327-335 | register fields are unchanged and the immediate reads back exactly when its operand can represent it |
| `Relocation.ReencodedBits` | src/asm/assembler.cc:327-335 | no bit outside the immediate changes |
| `Relocation.FetchShortIsFetch` | src/asm/codec.h:156-178 | at an instruction of two or four bytes inst_fetch needs no more than the four bytes of the site |
| `Relocation.CompressedSite` | src/asm/assembler.cc:327-335 | what a site with a compressed instruction becomes when the new instruction is four, two or any other number of bytes long, and that the two bytes after it survive if and only if it is not four or they are its upper half |
| `Relocation.CompressedSiteKeepsNext` | src/asm/assembler.cc:327-335 | the two bytes after a compressed instruction survive, whatever they are, if and only if the new instruction is not four bytes long |
| `Relocation.PatchedShortCall` | src/asm/assembler.cc:404-425 | at a CALL whose first instruction is compressed and stays short, the second instruction is re-encoded two bytes on |
| `Relocation.JumpReaches` | src/asm/assembler.cc:357-361 | a relocated jal or branch goes to its target modulo 2^64 if and only if the displacement, read as a signed 64-bit number, is even and in range |
| `Relocation.PairReaches` | src/asm/assembler.cc:362-425 | an executed pair computes the target modulo 2^32, and modulo 2^64 if and only if its distance from the base, read as a signed 64-bit number, plus 0x800 fits 32 signed bits, for every target and base |
| `BaseIsa.TablesUnderstand` | meta/opcodes:16-60 | every word of the RV64I rows with codec u, uj, i, s or sb meets what relocation asks of the tables |
| `BaseIsa.UpperReads` | meta/opcodes:16-60 | the fields that lui and auipc words are read as |
| `BaseIsa.JalReads` | meta/opcodes:16-60 | the fields that jal words are read as |
| `BaseIsa.BranchReads` | meta/opcodes:16-60 | the fields that branch words are read as |
| `BaseIsa.StoreReads` | meta/opcodes:16-60 | the fields that store words are read as |
| `BaseIsa.ImmediateReads` | meta/opcodes:16-60 | the fields that jalr, load and immediate words are read as |
| `Link.ImageAt` | src/asm/assembler.cc:445-448 | a byte of a section is in the image at the section's base plus its offset |
| `Link.FinalSite` | src/asm/assembler.cc:449-454 | with sites that do not overlap, each resolved site is patched once from its original bytes and each other site untouched |
| `Link.FinalOutside` | src/asm/assembler.cc:449-454 | bytes outside resolved sites do not change |
| `Link.CountIsNumber` | src/asm/assembler.cc:449-457 | the count that link returns is the number of relocations that came out unresolved |
| `Link.Linker.ReencodeAt` | src/asm/assembler.cc:327-335 | writes the two or four bytes of the new instruction in place |
| `Link.Linker.Relocate` | src/asm/assembler.cc:337-440 | resolves, renames and patches as specified, or reports the relocation unresolved and leaves the bytes alone |
| `Link.Linker.Run` | src/asm/assembler.cc:442-458 | lays sections out end to end, settles every relocation in order, patches exactly the resolved sites, whatever two- or four-byte instructions they hold, and counts the others |
| `LinkMeaning.LinkAll` | src/asm/assembler.cc:442-458 | link turns labels, sections and relocations into a linked program in the sense of the rows below |
| `LinkMeaning.RefersTo` | src/asm/assembler.cc:337-344 | a relocation gets the image address of the one label that its name means from its site |
| `LinkMeaning.LabelInImage` | src/asm/assembler.cc:342-344 | the address of a label in a section is where the byte it stands before is in the image; a constant is its own address |
| `LinkMeaning.ForwardIsUp` | src/asm/assembler.cc:196-214 | a label after a site has a higher address than the site, and a label at or before it has not |
| `LinkMeaning.AddressIsStored` | src/asm/assembler.cc:426-431 | at a resolved R_RISCV_32 or R_RISCV_64 the image holds the address of the label, in four or eight little-endian bytes |
| `LinkMeaning.JumpReachesLabel` | src/asm/assembler.cc:357-361 | the jump or branch read from the linked image goes to the image address of its label, or to the value of its constant, if and only if the signed 64-bit distance is even and in range, with opcode and registers unchanged |
| `LinkMeaning.UpperLowerReachLabel` | src/asm/assembler.cc:362-373 | HI20 with LO12 in the image compute the address of their label or the value of their constant, negative ones included, exactly when it plus 0x800 fits 32 signed bits |
| `LinkMeaning.PcrelReachesLabel` | src/asm/assembler.cc:374-403 | PCREL_HI20 with PCREL_LO12 in a section at base 0 compute the address of the high part's label, exactly when the signed 64-bit distance plus 0x800 fits 32 signed bits |
| `LinkMeaning.CallReachesLabel` | src/asm/assembler.cc:404-425 | the auipc and jalr of a CALL in the image compute the address of their label or the value of their constant, exactly when the signed 64-bit distance plus 0x800 fits 32 signed bits |
| `LinkMeaning.LinkedOutside` | src/asm/assembler.cc:442-458 | bytes outside the resolved sites are in the image as they were before link |
| `LinkMeaning.PcrelLowExactly` | src/asm/assembler.cc:379-403 | a low part gets target and base of the high part its label stands at, in whatever section, if and only if the low part's section has base 0 and what stands where it looks bears the name of a label at the target |
| `LinkMeaning.PcrelLowFollowsHigh` | src/asm/assembler.cc:379-403 | of a high part in its own section if and only if the section's base is 0 and, where the low part comes first, the high part's unresolved name is the name of a label at the target; of one in another section never, when all sites have bytes |
| `LinkMeaning.LowBeforeHigh` | src/asm/assembler.cc:379-403 | where the low part comes first in the high part's section: a name that is not local is found all the same; at base 0 a local one is unresolved unless a label bears that very name |
| `LinkExamples.LowPartGoesWrong` | src/asm/assembler.cc:386-386 | a linked program with auipc and addi in a section at base 4, where the low part meets itself and gets another target |
| `LinkExamples.LocalHighIsTooLate` | src/asm/assembler.cc:393-395 | a linked program in which a low part before a high part that refers to 1f is unresolved |
| `LinkExamples.CjBecomesJal` | meta/opcodes:337-337 | every relocated c.j becomes a four-byte jal |
| `LinkExamples.CjLosesNext` | src/asm/assembler.cc:327-335 | no relocation of the compressed jump 0xa001 keeps all bytes that may follow it |
| `LinkExamples.CjOverwritesReturn` | src/asm/assembler.cc:327-335 | c.j followed by c.jr ra becomes a jal alone |
| `AddressPairs.DecodePairs` | src/asm/disasm.h:71-98 | the nested scan returns the value of the first row that pairs with the last writer of rs1 |
| `AddressPairs.RecoverExactly` | src/asm/disasm.h:31-98 | an address is recovered exactly when the last writer of rs1 in the history pairs with the instruction |
| `AddressPairs.RowsAre` | src/asm/disasm.h:30-51 | lui pairs with addi, auipc with every instruction that adds an immediate to rs1, and nothing else pairs |
| `AddressPairs.RecoverMeans` | src/asm/disasm.h:71-98 | the address recovered, or none, from the last writer of rs1 and the instruction alone |
| `AddressPairs.RecoveredIsComputed` | src/asm/disasm.h:71-98 | for a base other than x0 the address is the sum execution computes, exactly when no 32-bit overflow occurs in the absolute case, for histories of any length |
| `AddressPairs.BaseX0` | src/asm/disasm.h:71-98 | for base x0 it is right exactly when the paired value is zero |
| `AddressPairs.X0IsMisread` | src/asm/disasm.h:71-98 | auipc x0 followed by addi from x0 |
| `AddressPairs.LuiWraps` | src/asm/disasm.h:83-85 | for an execution of lui of the lowest value, the address recovered for addi of -1 is 0x7fffffff and not the sum |
| `AddressPairs.KeptIsSuffix` | src/asm/disasm.cc:199-213 | the history is the end of the listing, at most 16 entries, with no jump after its first |
| `AddressPairs.KeptIsLongest` | src/asm/disasm.cc:199-213 | and no longer end of the listing is like that |
| `AddressPairs.ShorterFindsLess` | src/asm/disasm.cc:209-213 | a truncated history recovers the same address or none |
| `AddressPairs.ListingIsSound` | src/asm/disasm.cc:188-213 | over a whole listing, with calls that return with arbitrary registers, recovered addresses are those execution computes |
| `AddressPairs.Listing.Inst` | src/asm/disasm.cc:188-213 | decodes against the kept history and updates it |
| `Constraints.CheckedIsFixed` | src/asm/constraints.h:10-97 | if the check accepts a record, the set leaves it unchanged, for every constraint list |
| `Constraints.SetIsAcceptedWhen` | src/asm/constraints.h:65-97 | for every constraint list: setting it makes every record one that the check accepts, if and only if the constraints hold of the symbols it leaves, and if and only if it does so for two given records |
| `Constraints.OrderMatters` | src/asm/constraints.h:65-97 | rd = rs1 before rs1 = sp is not established |
| `Constraints.PseudoRoundTrip` | src/asm/codec.h:245-324 | pseudo decoding and then encoding restores the whole record when the tables pair operation and constraints |
| `Constraints.UnpseudoRoundTrip` | src/asm/codec.h:245-324 | pseudo encoding and then decoding gives back the operation if and only if the constraints set hold together and no earlier row accepts the record |
| `Pseudos.CsrReads` | meta/pseudos:46-54 | the word that reading a control and status register stands for has the register's number and x0 |
| `Pseudos.NotWord` | meta/pseudos:12-12 | not is xori with all ones |
| `Pseudos.SeqzWord` | meta/pseudos:16-16 | seqz is sltiu with 1 |
| `Pseudos.RetWord` | meta/pseudos:41-41 | ret is jalr x0, 0(x1) |
| `Pseudos.MoveWord` | meta/pseudos:20-28 | fmv, fabs and fneg name their source twice |
| `Pseudos.InstretReadsCycle` | src/asm/meta.cc:3244-3260 | rdinstreth encoded and decoded is not rdinstreth, because its constraints are those of rdcycleh, which comes first |
| `Compression.SurvivesWhen` | src/asm/codec.h:265-311 | a record survives a compressed codec, whatever word carries it, if and only if its asserts hold and it is in range |
| `Compression.CsSurvivesWhen` | src/asm/encode.h:161-165 | the same for CS, where rs2 must be rd |
| `Compression.RowExactly` | src/asm/meta.cc:28-391 | for every row of the compression table and every record of the instruction: if the constraints accept it, it survives exactly when it meets the stated condition, and if it survives it is accepted, but for hints and reserved code points |
| `Compression.CompressKeepsWhen` | src/asm/codec.h:265-311 | for any list of rows, the first that accepts the record keeps it exactly when that row's condition holds |
| `Compression.LiLosesForty` | src/asm/meta.cc:555-561 | addi a0, x0, 40 becomes c.li and is not restored |
| `Compression.AdjustLosesThirtySix` | src/asm/meta.cc:555-561 | addi sp, sp, 36 becomes c.addi16sp and is not restored |
| `Compression.JrLosesOffset` | src/asm/meta.cc:527-529 | jalr x0, 8(a0) becomes c.jr and is not restored |
| `Constraints.Record.ConstraintCheck` | src/asm/constraints.h:10-63 | accepts exactly the records that meet every constraint |
| `Constraints.Record.ConstraintSet` | src/asm/constraints.h:65-97 | assigns in list order, and nothing if the check would accept |
| `Constraints.Record.DecodePseudo` | src/asm/codec.h:245-308 | takes the first row whose constraints hold, and reports whether there is one |
| `Constraints.Record.EncodePseudo` | src/asm/codec.h:315-324 | takes the operation's row and sets its constraints |
| `ProcessImage.RoundUpMeans` | src/asm/bits.h:71-74 | rounding gives the first page boundary at or above an address below the last page |
| `ProcessImage.LoadKeeps` | src/app/rv-sim.cc:285-334 | loading a congruent segment keeps the heap empty, aligned and above everything loaded |
| `ProcessImage.LoadedIs` | src/app/rv-sim.cc:285-334 | after loading any headers the segments are exactly their spans in order, the break is the largest of their ends, and the heap begins and ends within a page above it |
| `ProcessImage.AlignedOnlyIfCongruent` | src/app/rv-sim.cc:294-300 | the heap stays page-aligned if and only if the segment is congruent |
| `ProcessImage.BrkKeeps` | src/abi/unknown-abi.h:329-369 | brk keeps break and heap ends in order and aligned, moves the end only up, and extends the tiling |
| `ProcessImage.HeapEndsAt` | src/abi/unknown-abi.h:329-369 | after any run the heap ends where it ended before or at the first page boundary above a break that was mapped, and no break that the run set lies above it |
| `ProcessImage.BrkExactly` | src/abi/unknown-abi.h:333-368 | after a successful mapping the break is within the heap if and only if the rounding did not overflow |
| `ProcessImage.BrkOverflows` | src/abi/unknown-abi.h:333-368 | the largest address as new break would leave the break outside the heap |
| `ProcessImage.QueryAnswersLast` | src/abi/unknown-abi.h:329-369 | after any run brk(0) answers what the last successful call asked for |
| `ProcessImage.BreakInHeapWhen` | src/abi/unknown-abi.h:329-369 | after any run the break lies between the heap's begin and end if and only if the last successful call asked for an address at or above the begin |
| `ProcessImage.BreakBelowHeap` | src/abi/unknown-abi.h:346-349 | brk(-1) puts the break at -1 |
| `ProcessImage.ImageInvariant` | src/app/rv-sim.cc:435-445 | over any loads, the stack and any brk calls, with mappings that succeed or fail: brk <= heap_end, aligned ends, the segments are the headers' spans, the stack and then brk segments that tile the heap above all that was loaded |
| `ProcessImage.HeapOnlyGrows` | src/abi/unknown-abi.h:329-369 | heap_end never shrinks between two points of a run |
| `ProcessImage.TilesCover` | src/abi/unknown-abi.h:358-367 | every heap address lies in a tile and no other address does |
| `ProcessImage.TilesApart` | src/abi/unknown-abi.h:358-367 | no address lies in two tiles |
| `ProcessImage.ProxyMemory.LoadSegment` | src/app/rv-sim.cc:285-334 | the step of the loader, which panics when the mapping fails |
| `ProcessImage.ProxyMemory.SysBrk` | src/abi/unknown-abi.h:329-369 | the step of brk; it answers the break, or -ENOMEM exactly when a mapping was needed and failed, and then nothing changes; the invariant is kept |
| `ProxyStack.PointersAddress` | src/app/rv-sim.cc:249-263 | each recorded pointer addresses its own NUL-terminated string |
| `ProxyStack.PointerIs` | src/app/rv-sim.cc:249-263 | the strings are packed downwards in order, each with its NUL |
| `ProxyStack.ArrayReads` | src/app/rv-sim.cc:268-282 | an array of words reads back as itself |
| `ProxyStack.LayoutReads` | src/app/rv-sim.cc:218-283 | reading up from sp gives argc, argv and null, envp and null, and the auxiliary vector; pointers are non-null and address their strings |
| `ProxyStack.AlignedWhen` | src/app/rv-sim.cc:265-282 | the first stack pointer is 16-byte aligned if and only if the tables are a multiple of 16 bytes long |
| `ProxyStack.LayoutSize` | src/app/rv-sim.cc:218-283 | the stack holds the tables, the strings and eight bytes more, and less than 16 bytes of padding |
| `ProxyStack.MarkOnTop` | src/app/rv-sim.cc:185-205 | the eight bytes below the top stay as map_proxy_stack wrote them |
| `ProxyStack.NotAlwaysAligned` | src/app/rv-sim.cc:265-282 | two arguments and no environment on RV64 |
| `ProxyStack.Stack.Copy` | src/app/rv-sim.cc:207-216 | panics exactly when the data does not fit, and otherwise puts it below the live stack, within bounds |
| `ProxyStack.Stack.PushStrings` | src/app/rv-sim.cc:249-263 | pushes the strings in order and records their addresses |
| `ProxyStack.Stack.Setup` | src/app/rv-sim.cc:218-283 | panics exactly when the layout does not fit, and otherwise leaves it, readable as stated |

## Left out

- Cache, TLB, soft MMU, JIT emitter, run loop, debugger, floating point and the other system calls.
- div, divu, rem and remu of src/asm/alu.h: single conditional expressions.
- Command line, ELF parsing and printing, histograms, colours and the text of the disassembly.
- The generated tables: parameters with stated conditions, but for the rows in BaseIsa, Compression and Pseudos.
- Compression.RowExactly: that decompression turns the operation of a row back is a lookup in a generated table; code points that two compressed instructions share are not told apart.
- Opcode masks above bit 31, for which the builder's 32-bit shifts are undefined, and a second generate_codec on a generator whose done words are not clear.
- The choice that the printed switch makes among opcodes of one leaf by ISA width and extension.
- CodecRoundTrip.FormatRoundTrip: decoders are functions from record to record; that they write through a reference is not modelled.
- InstBuffer.Sweep: a fetch reads up to eight bytes, so eight readable bytes follow the buffer; at an illegal encoding longer than 64 bits the sweep of the source does not advance.
- Labels.LabelTable.FreeName: the counter is unbounded; a map of 2^64 labels does not fit in memory.
- Link.Linker.Run: instructions longer than 32 bits at a site, and a site of a compressed instruction with fewer than four bytes left in its section, which link would read and write past; the asserts of the encoders, which hold for the codecs u, uj, i, s and sb, are not modelled at sites of other codecs.
- Link.Linker.Relocate: where a %pcrel_lo leads to a constant, the source indexes the sections with SHN_ABS; where there are not that many sections this is undefined, and the model reports the relocation unresolved.
- AddressPairs.ListingIsSound: control that enters a listing in the middle, and registers changed by the environment at ecall, are not part of the execution considered.
- ProcessImage.BrkKeeps: assumes that mmap fails when the rounded break overflows; the case without this is ProcessImage.BrkExactly.
- ProcessImage.ImageInvariant: file contents, zeroing of trailing bytes, permissions and overlap of the heap with the stack are not modelled.
- ProxyStack.Stack.Setup: sp is an unbounded integer, so a string longer than the address space below the stack on RV32 is not modelled; the values of the auxiliary vector are a parameter.
