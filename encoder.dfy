/**
 * The instruction path of the assembler: a line that is not a memory
 * directive is split at its first space into a mnemonic and an optional
 * operand, looked up in the opcode table, checked, and packed into one byte.
 */
module Encoder {
  import opened JsText
  import opened Radix
  import opened Isa

  /** Why an instruction line was refused; each reason names the token it reports. */
  datatype InstrError =
    | InvalidOpcode(opcode: string)
    | MissingOperand(opcode: string)
    | InvalidOperandFormat(operand: string)
    | ShiftOutOfRange(operand: string)
    | UnexpectedOperand(opcode: string)
    | InvalidOpcodeLength(opcode: string)
    | OperandOutOfRange(operand: string)
  {
    /**
     * The message the assembler reports for this error on line `line`; it is
     * never empty, so the empty error string can stand for success, and it
     * ends with ` at line ` and the line number in decimal.
     */
    function Message(line: nat): (m: string)
      ensures m != []
      ensures var t := " at line " + ToRadix(line, 10); |t| <= |m| && m[|m| - |t|..] == t
    {
      var at := " at line " + ToRadix(line, 10);
      match this
      case InvalidOpcode(op) => "Invalid opcode: " + op + at
      case MissingOperand(op) => "Missing operand for opcode: " + op + at
      case InvalidOperandFormat(x) => "Invalid operand format: " + x + at
      case ShiftOutOfRange(x) => "Shift amount out of range (0-7): " + x + at
      case UnexpectedOperand(op) => "Unexpected operand for opcode: " + op + at
      case InvalidOpcodeLength(op) => "Invalid opcode length for: " + op + at
      case OperandOutOfRange(x) => "Operand out of range (0-15): " + x + at
    }
  }

  /** The first space-separated piece of a line. */
  function Mnemonic(item: string): (m: string)
    ensures ' ' !in m
  {
    Split(item, ' ')[0]
  }

  /**
   * The second space-separated piece of a line, or the empty string when
   * there is none; the assembler treats a missing and an empty operand alike.
   */
  function Operand(item: string): (x: string)
    ensures ' ' !in x
  {
    var pieces := Split(item, ' ');
    if |pieces| > 1 then pieces[1] else ""
  }

  /** For a literal, `startsWith("0x")` and `startsWith("0b")` pick out its form. */
  lemma PrefixSelectsForm(s: string)
    requires IsLiteral(s)
    ensures StartsWith(s, "0x") <==> IsHexLiteral(s)
    ensures StartsWith(s, "0b") <==> IsBinaryLiteral(s)
  {
    Forms(s);
    if StartsWith(s, "0x") || StartsWith(s, "0b") {
      assert s[1] == s[..2][1];
      assert !IsDecDigit(s[1]);
    }
  }

  /**
   * The operand field of a width-4 instruction before its length is checked:
   * the bits of the operand's value, at least four of them. A binary operand
   * keeps its digits as written, so its field is longer than four exactly
   * when more than four digits were written, whatever their value.
   */
  function OperandBits(operand: string): (bits: string)
    requires IsLiteral(operand)
    ensures |bits| >= 4 && IsDigitsOf(bits, 2)
    ensures ValueOf(bits, 2) == LiteralValue(operand)
    ensures IsBinaryLiteral(operand) ==> bits == PadStart(Digits(operand), 4, '0')
    ensures !IsBinaryLiteral(operand) ==> (|bits| == 4 <==> LiteralValue(operand) <= 15)
  {
    PrefixSelectsForm(operand);
    var d := Digits(operand);
    var raw :=
      if StartsWith(operand, "0x") then HexToBinary(operand[2..])
      else if StartsWith(operand, "0b") then operand[2..]
      else DecimalToBinary(ValueOf(operand, 10));
    PadStartValue(raw, 4, 2);
    PadStart(raw, 4, '0')
  }

  /**
   * The opcode field and the operand field of the byte, from the mnemonic's
   * pattern and the operand piece. A four-bit pattern needs a literal operand
   * (and, for the shift-gated names, one of value at most 7); a five-bit
   * pattern takes no operand and lends its first bit to the operand field.
   */
  function EncodeFields(opcode: string, pattern: string, operand: string): (r: Result<(string, string), InstrError>)
    requires IsDigitsOf(pattern, 2)
    ensures r.Ok? ==> |r.value.0| == 4 && IsDigitsOf(r.value.0, 2)
    ensures r.Ok? ==> |r.value.1| >= 4 && IsDigitsOf(r.value.1, 2)
  {
    if |pattern| == 4 then
      if operand == "" then Err(MissingOperand(opcode))
      else if !IsLiteral(operand) then Err(InvalidOperandFormat(operand))
      else
        var bits := OperandBits(operand);
        if opcode in ShiftGate && ValueOf(bits, 2) > 7 then Err(ShiftOutOfRange(operand))
        else Ok((pattern, bits))
    else if |pattern| == 5 then
      if operand != "" then Err(UnexpectedOperand(opcode))
      else
        var field := "000" + [pattern[0]];
        assert IsDigitsOf(field, 2) by { assert field[3] == pattern[0]; }
        Ok((pattern[1..], field))
    else Err(InvalidOpcodeLength(opcode))
  }

  /**
   * One instruction line as a memory cell: its text, its byte in bits, and
   * the byte in hexadecimal.
   */
  function EncodeInstruction(item: string): (r: Result<Cell, InstrError>)
    ensures r.Ok? ==> r.value.instruction == item && IsByteCell(r.value)
  {
    var opcode := Mnemonic(item);
    if opcode !in Opcodes then Err(InvalidOpcode(opcode))
    else
      PatternsAreBits(opcode);
      EncodeWith(item, opcode, Opcodes[opcode], Operand(item))
  }

  /**
   * The cell for a line whose mnemonic is in the table with pattern
   * `pattern`: the two fields side by side, refused when the operand field
   * is longer than four bits.
   */
  function EncodeWith(item: string, opcode: string, pattern: string, operand: string): (r: Result<Cell, InstrError>)
    requires IsDigitsOf(pattern, 2)
    ensures r.Ok? ==> r.value.instruction == item && IsByteCell(r.value)
  {
    match EncodeFields(opcode, pattern, operand)
    case Err(e) => Err(e)
    case Ok((opcodeBinary, operandBinary)) =>
      if |operandBinary| > 4 then Err(OperandOutOfRange(operand))
      else
        var binary := opcodeBinary + operandBinary;
        DigitsConcat(opcodeBinary, operandBinary, 2);
        var hex := BinaryToHex(binary);
        assert PadStart(hex, 2, '0') == hex[0..] == hex;
        Ok(Cell(item, binary, PadStart(hex, 2, '0')))
  }

  /** A line `m x` splits into mnemonic `m` and operand `x`. */
  lemma SplitLine(m: string, x: string)
    requires ' ' !in m && ' ' !in x
    ensures Mnemonic(m + " " + x) == m && Operand(m + " " + x) == x
  {
    SplitAtFirst(m, ' ', x);
    SplitNoSeparator(x, ' ');
    assert m + " " + x == m + [' '] + x;
  }

  /** A line without a space is a mnemonic with no operand. */
  lemma BareLine(m: string)
    requires ' ' !in m
    ensures Mnemonic(m) == m && Operand(m) == ""
  {
    SplitNoSeparator(m, ' ');
  }

  /** A mnemonic missing from the table is reported as an invalid opcode. */
  lemma UnknownMnemonic(item: string)
    requires Mnemonic(item) !in Opcodes
    ensures EncodeInstruction(item) == Err(InvalidOpcode(Mnemonic(item)))
  {
  }

  /**
   * A mnemonic without operand, with pattern b0 b1 b2 b3 b4, encodes to the
   * byte b1 b2 b3 b4 0 0 0 b0; given any operand it is refused.
   */
  lemma BareEncoding(item: string)
    requires Mnemonic(item) in BareMnemonics
    ensures var p, r := Opcodes[Mnemonic(item)], EncodeInstruction(item);
      && (Operand(item) != "" ==> r == Err(UnexpectedOperand(Mnemonic(item))))
      && (Operand(item) == "" ==>
            r.Ok? && |p| == 5 && r.value.binary == [p[1], p[2], p[3], p[4], '0', '0', '0', p[0]])
  {
    var m := Mnemonic(item);
    MnemonicWidth(m);
    PatternsAreBits(m);
    BareWith(item, m, Opcodes[m], Operand(item));
  }

  lemma BareWith(item: string, m: string, p: string, x: string)
    requires |p| == 5 && IsDigitsOf(p, 2)
    ensures x != "" ==> EncodeWith(item, m, p, x) == Err(UnexpectedOperand(m))
    ensures x == "" ==> EncodeWith(item, m, p, x).Ok?
    ensures x == "" ==> EncodeWith(item, m, p, x).value.binary == [p[1], p[2], p[3], p[4], '0', '0', '0', p[0]]
  {
    BareFields(m, p, x);
    assert p[1..] + ("000" + [p[0]]) == [p[1], p[2], p[3], p[4], '0', '0', '0', p[0]];
  }

  lemma BareFields(m: string, p: string, x: string)
    requires |p| == 5 && IsDigitsOf(p, 2)
    ensures x != "" ==> EncodeFields(m, p, x) == Err(UnexpectedOperand(m))
    ensures x == "" ==> EncodeFields(m, p, x) == Ok((p[1..], "000" + [p[0]]))
  {
  }

  /** `ADD`, pattern 01010, becomes the byte 10100000, hexadecimal a0. */
  lemma AddEncoding()
    ensures EncodeInstruction("ADD") == Ok(Cell("ADD", "10100000", "a0"))
  {
    BareLine("ADD");
    assert Opcodes["ADD"] == "01010";
    PatternsAreBits("ADD");
    BareWith("ADD", "ADD", "01010", "");
    var c := EncodeInstruction("ADD").value;
    assert c.binary == "10100000";
    Bits160();
    HexOf160(c.hex);
  }

  /** The eight bits 10100000 have value 160. */
  lemma Bits160()
    ensures IsDigitsOf("10100000", 2) && ValueOf("10100000", 2) == 160
  {
    var s := "10100000";
    BitsAreBinaryDigits(s);
    for k := 0 to 8
      invariant ValueOf(s[..k], 2) == [0, 1, 2, 5, 10, 20, 40, 80, 160][k]
    {
      assert s[..k + 1][..k] == s[..k];
    }
    assert s[..8] == s;
  }

  /** The only two lower-case hexadecimal digits of value 160 are a0. */
  lemma HexOf160(h: string)
    requires |h| == 2 && IsDigitsOf(h, 16) && IsLowerCase(h) && ValueOf(h, 16) == 160
    ensures h == "a0"
  {
    assert h[..1] == [h[0]];
    assert ValueOf(h, 16) == DigitValue(h[0]) * 16 + DigitValue(h[1]);
    assert DigitValue(h[0]) == 10 && DigitValue(h[1]) == 0;
  }

  /** A mnemonic that takes an operand and is given none is refused. */
  lemma MissingOperandRefused(item: string)
    requires Mnemonic(item) in OperandMnemonics && Operand(item) == ""
    ensures EncodeInstruction(item) == Err(MissingOperand(Mnemonic(item)))
  {
    MnemonicWidth(Mnemonic(item));
  }

  /** An operand that is neither decimal, `0x` hexadecimal nor `0b` binary is refused. */
  lemma InvalidOperandRefused(item: string)
    requires Mnemonic(item) in OperandMnemonics && Operand(item) != "" && !IsLiteral(Operand(item))
    ensures EncodeInstruction(item) == Err(InvalidOperandFormat(Operand(item)))
  {
    MnemonicWidth(Mnemonic(item));
  }

  /**
   * Outside the shift-gated names, a decimal or hexadecimal operand is
   * accepted exactly when its value is at most 15, and fills the low four
   * bits with that value.
   */
  lemma ValueOperand(item: string)
    requires Mnemonic(item) in OperandMnemonics && Mnemonic(item) !in ShiftGate
    requires IsLiteral(Operand(item)) && !IsBinaryLiteral(Operand(item))
    ensures var x, r := Operand(item), EncodeInstruction(item);
      && (r.Ok? <==> LiteralValue(x) <= 15)
      && (r.Ok? ==> r.value.binary == Opcodes[Mnemonic(item)] + PadStart(ToRadix(LiteralValue(x), 2), 4, '0'))
      && (r.Err? ==> r.error == OperandOutOfRange(x))
  {
    MnemonicWidth(Mnemonic(item));
    OperandBitsOfValue(Operand(item));
  }

  /** Below 16, the operand field of a decimal or hexadecimal operand is its value in four bits. */
  lemma OperandBitsOfValue(x: string)
    requires IsLiteral(x) && !IsBinaryLiteral(x)
    ensures LiteralValue(x) <= 15 ==> OperandBits(x) == PadStart(ToRadix(LiteralValue(x), 2), 4, '0')
  {
    PrefixSelectsForm(x);
    var v := LiteralValue(x);
    if v <= 15 {
      RadixLength(v, 2, 4);
      if IsHexLiteral(x) {
        assert OperandBits(x) == PadStart(HexToBinary(x[2..]), 4, '0');
      } else {
        assert OperandBits(x) == PadStart(DecimalToBinary(ValueOf(x, 10)), 4, '0');
      }
    }
  }

  /**
   * Outside the shift-gated names, a binary operand is accepted exactly when
   * at most four digits are written, whatever their value, and its digits
   * fill the low four bits.
   */
  lemma BinaryOperand(item: string)
    requires Mnemonic(item) in OperandMnemonics && Mnemonic(item) !in ShiftGate
    requires IsBinaryLiteral(Operand(item))
    ensures var x, r := Operand(item), EncodeInstruction(item);
      && (r.Ok? <==> |Digits(x)| <= 4)
      && (r.Ok? ==> r.value.binary == Opcodes[Mnemonic(item)] + PadStart(Digits(x), 4, '0'))
      && (r.Err? ==> r.error == OperandOutOfRange(x))
  {
    MnemonicWidth(Mnemonic(item));
  }

  /**
   * For SHL and SHR an operand of value above 7 is refused with the shift
   * error, before the four-bit check. One of value at most 7 written in
   * decimal or hexadecimal fills the low four bits with its value; one
   * written in binary then goes through the four-bit check like any other
   * binary operand, so `SHL 0b00001` is refused as out of range.
   */
  lemma ShiftOperand(item: string)
    requires Mnemonic(item) in {"SHL", "SHR"} && IsLiteral(Operand(item))
    ensures var x, r := Operand(item), EncodeInstruction(item);
      && (LiteralValue(x) > 7 ==> r == Err(ShiftOutOfRange(x)))
      && (LiteralValue(x) <= 7 && !IsBinaryLiteral(x) ==>
            r.Ok? && r.value.binary == Opcodes[Mnemonic(item)] + PadStart(ToRadix(LiteralValue(x), 2), 4, '0'))
      && (LiteralValue(x) <= 7 && IsBinaryLiteral(x) ==>
            && (|Digits(x)| > 4 ==> r == Err(OperandOutOfRange(x)))
            && (|Digits(x)| <= 4 ==> r.Ok? && r.value.binary == Opcodes[Mnemonic(item)] + PadStart(Digits(x), 4, '0')))
  {
    MnemonicWidth(Mnemonic(item));
    if !IsBinaryLiteral(Operand(item)) {
      OperandBitsOfValue(Operand(item));
    }
  }
}
