/**
 * The instruction set of the 8-bit machine: the mnemonic table, the memory
 * cell the assembler fills in, and the result type its encoders return.
 */
module Isa {
  import opened Radix

  datatype Result<T, E> = Ok(value: T) | Err(error: E)

  datatype Option<T> = None | Some(value: T)

  /**
   * One cell of the memory image: the program line it came from, its byte as
   * a bit string and as a hexadecimal string.
   */
  datatype Cell = Cell(instruction: string, binary: string, hex: string)

  /**
   * A cell holding one byte: eight bits, and two lower-case hexadecimal
   * digits of the same value.
   */
  predicate IsByteCell(c: Cell) {
    && |c.binary| == 8 && IsDigitsOf(c.binary, 2)
    && |c.hex| == 2 && IsDigitsOf(c.hex, 16) && IsLowerCase(c.hex)
    && ValueOf(c.hex, 16) == ValueOf(c.binary, 2)
  }

  /** What an untouched cell holds. */
  const DefaultCell: Cell := Cell("", "00000000", "00")

  /** An untouched cell comes from no line and holds the byte zero. */
  lemma DefaultCellIsZero()
    ensures DefaultCell.instruction == [] && IsByteCell(DefaultCell) && ValueOf(DefaultCell.binary, 2) == 0
  {
    ZerosValue(DefaultCell.binary, 2);
    ZerosValue(DefaultCell.hex, 16);
  }

  /** The opcode patterns: four bits for the mnemonics that take an operand, five for the others. */
  const Opcodes: map<string, string> := map[
    "LDA" := "0000",
    "LDB" := "0001",
    "STA" := "0010",
    "JMP" := "0011",
    "JZ" := "0100",
    "JNZ" := "0101",
    "SHL" := "0110",
    "SHR" := "0111",
    "ROL" := "1000",
    "ROR" := "1001",
    "ADD" := "01010",
    "SUB" := "01011",
    "INC" := "01100",
    "DEC" := "01101",
    "REV" := "01110",
    "HLT" := "01111",
    "NOP" := "11010",
    "CMP" := "11011",
    "BW_OR" := "11100",
    "BW_AND" := "11101",
    "BW_NOT" := "11110",
    "BW_XOR" := "11111"
  ]

  const OperandMnemonics: set<string> :=
    {"LDA", "LDB", "STA", "JMP", "JZ", "JNZ", "SHL", "SHR", "ROL", "ROR"}

  const BareMnemonics: set<string> :=
    {"ADD", "SUB", "INC", "DEC", "REV", "HLT", "NOP", "CMP", "BW_OR", "BW_AND", "BW_NOT", "BW_XOR"}

  /** The names the stricter shift-amount check is gated on. */
  const ShiftGate: set<string> := {"SHL", "SHR", "RCL", "RCR"}

  /** A string of '0' and '1' characters is a string of binary digits. */
  lemma BitsAreBinaryDigits(s: string)
    requires forall i :: 0 <= i < |s| ==> s[i] == '0' || s[i] == '1'
    ensures IsDigitsOf(s, 2)
  {
    forall i | 0 <= i < |s| ensures IsDigitOf(s[i], 2) { assert IsBinDigit(s[i]); }
  }

  /**
   * The mnemonics are the ten that take an operand, which have four-bit
   * patterns, and the twelve that take none, which have five.
   */
  lemma MnemonicWidth(m: string)
    ensures m in Opcodes <==> m in OperandMnemonics || m in BareMnemonics
    ensures m in OperandMnemonics ==> m in Opcodes && |Opcodes[m]| == 4
    ensures m in BareMnemonics ==> m in Opcodes && |Opcodes[m]| == 5
  {
  }

  /** Every pattern is a bit string. */
  lemma PatternsAreBits(m: string)
    requires m in Opcodes
    ensures IsDigitsOf(Opcodes[m], 2)
  {
    var p := Opcodes[m];
    assert forall i :: 0 <= i < |p| ==> p[i] == '0' || p[i] == '1';
    BitsAreBinaryDigits(p);
  }

  /** No two mnemonics share a pattern. */
  lemma PatternsDistinct()
    ensures forall m1, m2 :: m1 in Opcodes && m2 in Opcodes && Opcodes[m1] == Opcodes[m2] ==> m1 == m2
  {
  }

  /**
   * Of the gated names only SHL and SHR are in the table: RCL and RCR are not
   * mnemonics, and the rotations ROL and ROR are not gated.
   */
  lemma ShiftGateInTable()
    ensures ShiftGate * Opcodes.Keys == {"SHL", "SHR"}
    ensures "RCL" !in Opcodes && "RCR" !in Opcodes
    ensures "ROL" !in ShiftGate && "ROR" !in ShiftGate
  {
  }
}
