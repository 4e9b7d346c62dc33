/** include/besm-666/instruction.hpp and rv-instruction-op.hpp: decoded instructions. */
module Isa {
  import opened Bits

  datatype Op =
    | INV_OP
    | LUI | AUIPC | JAL | JALR
    | BEQ | BNE | BLT | BGE | BLTU | BGEU
    | LB | LH | LW | LBU | LHU | SB | SH | SW
    | ADDI | SLTI | SLTIU | XORI | ORI | ANDI
    | ADD | SUB | SLL | SLT | SLTU | XOR | SRL | SRA | OR | AND
    | FENCE | FENCE_TSO | PAUSE | ECALL | EBREAK
    | LWU | LD | SD | SLLI | SRLI | SRAI
    | ADDIW | SLLIW | SRLIW | SRAIW | ADDW | SUBW | SLLW | SRLW | SRAW
    | CSRRW | CSRRS | CSRRC | CSRRWI | CSRRSI | CSRRCI
    | SRET | MRET
    | BB_END

  /** Fields a format does not set are zero, as aggregate initialisation leaves them. */
  datatype Instr = Instr(op: Op, rd: nat, rs1: nat, rs2: nat, imm: U64)

  const IMM_POISON: U64 := 0xFFFF_FFFF

  predicate IsBranch(op: Op) {
    match op
    case BEQ | BNE | BLT | BGE | BLTU | BGEU => true
    case _ => false
  }

  /** `Instruction::isJump`: the operations that end a basic block. */
  predicate IsJump(op: Op) {
    match op
    case JAL | JALR | BEQ | BNE | BLT | BGE | BLTU | BGEU | MRET | SRET | ECALL => true
    case _ => false
  }

  predicate IsStore(op: Op) {
    match op
    case SB | SH | SW | SD => true
    case _ => false
  }

  /** What every decoded instruction satisfies: real registers, no sentinel, and even
      displacements where the displacement is added to the PC. */
  predicate Decoded(i: Instr) {
    && i.rd < 32 && i.rs1 < 32 && i.rs2 < 32
    && i.op != BB_END
    && (IsBranch(i.op) || i.op.JAL? ==> Even(i.imm))
  }
}
