# SAP1 assembler, modelled in Dafny

This is a model of the assembler for an 8-bit SAP-1 style machine. The
assembler turns the text of a program into a memory image. The image has
sixteen cells, or one cell per instruction when a program has more than
sixteen instructions: the assembler writes past the end of its JavaScript
array, which grows, and the model states that growth (`Max(16, n)` cells)
rather than requiring at most sixteen instructions. Each cell holds the
program line it came from, its byte as a bit string, and the same byte as a
hexadecimal string: eight bits and two lower-case digits for an instruction
or a decimal directive value, while a hexadecimal directive value keeps its
digits as the hex string and a binary one keeps its digits as the bit string
(see below). The program is cut into lines; each line
loses its `;` comment and its surrounding whitespace, and blank lines are
dropped. The remaining items are processed in order until the first error:

- an item starting with `mem` is a memory directive `mem[ADDR] = VALUE` that
  writes one byte at an address from 0 to 15;
- any other item is an instruction: a mnemonic, looked up in the opcode table,
  with an optional operand written in decimal, `0x` hexadecimal or `0b` binary.

Instructions fill the image from cell 0. The directives are applied on top of
them afterwards, in order, so the last directive for an address wins. The
result is the image and an error message, which is empty when every item went
through.

The modules follow the source:

- `JsText` (jstext.dfy): the JavaScript string operations used: the whitespace
  class of `trim` and `\s`, `trim`, `split` on one character, `startsWith`.
- `Radix` (radix.dfy): digits, `toString(base)`, `parseInt` on clean digit
  strings, `padStart`, the literal grammar `^(0x[0-9a-fA-F]+|0b[01]+|\d+)$`,
  and the four radix helpers `binaryToHex`, `decimalToHex`, `decimalToBinary`
  and `hexToBinary`.
- `Isa` (isa.dfy): the opcode table, the memory cell, and the result types.
- `Encoder` (encoder.dfy): the instruction branch of the loop body.
- `MemDirective` (memdirective.dfy): `processMemInstruction`. This includes the
  unanchored search for the pattern `mem\[(\w+)\]\s*=\s*(\w+)`.
- `Assembler` (assembler.dfy): the line preprocessing and the pass over the
  items, stated as functions. It also has `assemble` itself as methods with
  the source's three loops, each proved equal to its specification function.

Behaviours of the code that may surprise a reader, all of which the model reproduces:

- The error's line number is the position of the item among the items that
  survive preprocessing, not the line of the program text.
- `ADD` (pattern `01010`) becomes the byte `10100000` (hex `a0`). The first
  pattern bit goes to the lowest bit, and the other four become the high bits.
- A hexadecimal directive value keeps its digits as written, with their case,
  padded to two. So `mem[0] = 0x00FF` stores the hex string `00FF`, and
  `0xAB` stores `AB`.
- A binary directive value keeps its digits as written, padded to eight. It
  can therefore be longer than eight bits when leading zeros are written; its
  hex string still has two digits (`mem[0] = 0b000000001` gives `01`).
- A binary instruction operand with more than four digits is refused as out of
  range even when its value fits in four bits (`0b00001`).
- The shift-amount check is gated on `SHL|SHR|RCL|RCR`. `RCL` and `RCR` are not
  in the table, and the rotations `ROL` and `ROR` are not gated.
- The `startsWith(";")` half of the line filter never drops anything, because
  the comment has already been cut off.

## Model

| member | source | states |
|---|---|---|
| Isa.Opcodes | src/scripts/assembler.ts:1-24 | the opcode table, entry for entry |
| Isa.DefaultCell | src/scripts/assembler.ts:133-137 | the cell an untouched address holds |
| Isa.DefaultCellIsZero | src/scripts/assembler.ts:133-137 | the untouched cell comes from no line and is a byte cell of value zero |
| Isa.MnemonicWidth | src/scripts/assembler.ts:1-24 | the table holds exactly the ten operand mnemonics, with four-bit patterns, and the twelve bare ones, with five-bit patterns |
| Isa.PatternsAreBits | src/scripts/assembler.ts:1-24 | every opcode pattern is a string of binary digits |
| Isa.PatternsDistinct | src/scripts/assembler.ts:1-24 | no two mnemonics share a pattern |
| Isa.ShiftGateInTable | src/scripts/assembler.ts:188 | of the gated names only SHL and SHR are mnemonics; ROL and ROR are not gated |
| JsText.StartsWith | src/scripts/assembler.ts:149 | `startsWith`: the text begins with the prefix (also lines 182 and 184) |
| JsText.Trim | src/scripts/assembler.ts:143 | the trimmed line neither starts nor ends with whitespace |
| JsText.TrimSlice | src/scripts/assembler.ts:143 | the trimmed line is the line with a whitespace prefix and a whitespace suffix removed |
| JsText.Split | src/scripts/assembler.ts:142 | splitting gives at least one piece, and no piece contains the separator |
| JsText.JoinSplit | src/scripts/assembler.ts:142 | joining the pieces with the separator gives back the text |
| JsText.SplitNoSeparator | src/scripts/assembler.ts:143 | a text without the separator splits into itself alone |
| JsText.SplitAtFirst | src/scripts/assembler.ts:143 | the first piece ends at the first separator and the rest is split again |
| Radix.ValueOf | src/scripts/assembler.ts:42 | `parseInt(s, base)` on a string of digits of that base, most significant first |
| Radix.ToRadix | src/scripts/assembler.ts:26-44 | `toString(base)` gives non-empty lower-case digits of the base, without a leading zero, whose value is the number |
| Radix.PadStart | src/scripts/assembler.ts:42 | the padded string has the target length (or its own if longer), ends with the original, and starts with filler |
| Radix.PadStartValue | src/scripts/assembler.ts:187 | padding with zeros keeps a digit string's value |
| Radix.RadixLength | src/scripts/assembler.ts:211 | a number has at most k digits in base b exactly when it is below b to the k |
| Radix.ValueOfBound | src/scripts/assembler.ts:211 | a string of k digits in base b has a value below b to the k |
| Radix.LeadingZeros | src/scripts/assembler.ts:99 | leading zeros do not change a digit string's value |
| Radix.Digits | src/scripts/assembler.ts:79-89 | the digits left once the `0x` or `0b` prefix is sliced off are digits of the literal's base |
| Radix.IsDecimalLiteral | src/scripts/assembler.ts:58 | the `\d+` alternative of the literal pattern |
| Radix.IsHexLiteral | src/scripts/assembler.ts:58 | the `0x[0-9a-fA-F]+` alternative of the literal pattern |
| Radix.IsBinaryLiteral | src/scripts/assembler.ts:58 | the `0b[01]+` alternative of the literal pattern |
| Radix.IsLiteral | src/scripts/assembler.ts:58 | the whole anchored literal pattern, also used for operands at line 176 |
| Radix.LiteralValue | src/scripts/assembler.ts:66-89 | a literal's value: `parseInt` of its digits in the base its prefix names |
| Radix.Forms | src/scripts/assembler.ts:58 | the decimal, hexadecimal and binary literal forms never overlap |
| Radix.DecimalRoundTrip | src/scripts/assembler.ts:58 | every number written in decimal is a literal that reads back as that number |
| Radix.HexRoundTrip | src/scripts/assembler.ts:58 | every number written as `0x` hexadecimal is a literal that reads back as that number |
| Radix.BinaryRoundTrip | src/scripts/assembler.ts:58 | every number written as `0b` binary is a literal that reads back as that number |
| Radix.FifteenInEveryForm | src/scripts/assembler.ts:58 | `15`, `0xF` and `0b1111` are literals that all denote fifteen |
| Radix.BinaryToHex | src/scripts/assembler.ts:26-29 | lower-case hexadecimal of the bits' value, at least two digits, exactly two exactly when the value is at most 255, so always two for at most eight bits |
| Radix.DecimalToHex | src/scripts/assembler.ts:31-34 | lower-case hexadecimal of the number, at least two digits, exactly two exactly when the number is at most 255 |
| Radix.DecimalToBinary | src/scripts/assembler.ts:36-39 | the number's bits, at least four, exactly four exactly when the number is at most 15 |
| Radix.HexToBinary | src/scripts/assembler.ts:41-44 | bits of the hexadecimal digits' value, at least four, exactly four exactly when the value is at most 15 |
| Radix.ByteBits | src/scripts/assembler.ts:100 | a value of at most 255 takes at most eight bits |
| Radix.ShortBinaryFitsByte | src/scripts/assembler.ts:117-118 | at most eight bits have a value below 256 |
| Encoder.InstrError.Message | src/scripts/assembler.ts:167-212 | each instruction error's message is not empty and ends with ` at line ` and the line number in decimal |
| Encoder.Mnemonic | src/scripts/assembler.ts:161-164 | the first space-separated piece of the line, which holds no space |
| Encoder.Operand | src/scripts/assembler.ts:161-164 | the second space-separated piece, or empty when there is none; it holds no space |
| Encoder.PrefixSelectsForm | src/scripts/assembler.ts:181-186 | for a literal, `startsWith("0x")` and `startsWith("0b")` hold exactly for the hexadecimal and binary forms |
| Encoder.SplitLine | src/scripts/assembler.ts:161-164 | `m x` with no spaces inside splits into mnemonic `m` and operand `x` |
| Encoder.BareLine | src/scripts/assembler.ts:161-164 | a line without a space is a mnemonic with no operand |
| Encoder.OperandBits | src/scripts/assembler.ts:181-187 | the operand field has at least four bits and the operand's value; a binary operand keeps its digits; otherwise the field is four bits exactly when the value is at most 15 |
| Encoder.EncodeFields | src/scripts/assembler.ts:170-208 | on success both fields are bit strings, the opcode field four bits long and the operand field at least four |
| Encoder.EncodeInstruction | src/scripts/assembler.ts:161-220 | an encoded line is a byte cell (eight bits and two lower-case hexadecimal digits of the same value) holding the line's text |
| Encoder.EncodeWith | src/scripts/assembler.ts:211-220 | the cell it builds is a byte cell holding the line's text |
| Encoder.UnknownMnemonic | src/scripts/assembler.ts:166-169 | a mnemonic missing from the table is refused as an invalid opcode |
| Encoder.BareEncoding | src/scripts/assembler.ts:196-204 | a bare mnemonic with pattern b0 b1 b2 b3 b4 encodes to b1 b2 b3 b4 0 0 0 b0, and is refused when given an operand |
| Encoder.AddEncoding | src/scripts/assembler.ts:196-220 | `ADD` becomes the cell `ADD`, `10100000`, `a0` |
| Encoder.Bits160 | src/scripts/assembler.ts:215-219 | the bits `10100000` have value 160 |
| Encoder.HexOf160 | src/scripts/assembler.ts:219 | the only two lower-case hexadecimal digits of value 160 are `a0` |
| Encoder.MissingOperandRefused | src/scripts/assembler.ts:173-175 | an operand mnemonic without an operand is refused as missing its operand |
| Encoder.InvalidOperandRefused | src/scripts/assembler.ts:176-178 | an operand that is not a literal is refused as badly formatted |
| Encoder.ValueOperand | src/scripts/assembler.ts:181-187 | outside the gate, a decimal or hex operand is accepted exactly when at most 15, fills the low nibble with its value, and is otherwise refused as out of range |
| Encoder.OperandBitsOfValue | src/scripts/assembler.ts:181-187 | below 16, a decimal or hex operand's field is its value in four bits |
| Encoder.BinaryOperand | src/scripts/assembler.ts:181-187 | outside the gate, a binary operand is accepted exactly when at most four digits are written, and its digits fill the low nibble |
| Encoder.ShiftOperand | src/scripts/assembler.ts:188-195 | for SHL and SHR an operand above 7 is refused with the shift error; a decimal or hex one of at most 7 fills the low nibble with its value; a binary one of at most 7 is then accepted exactly when at most four digits are written (`SHL 0b00001` is refused as out of range) and fills the low nibble with its digits |
| MemDirective.WordEnd | src/scripts/assembler.ts:47 | the run of `\w` characters from a position ends at the first non-word character |
| MemDirective.SpaceEnd | src/scripts/assembler.ts:47 | the run of `\s` characters from a position ends at the first non-space character |
| MemDirective.ShapeAt | src/scripts/assembler.ts:47 | a match of `mem\[(\w+)\]\s*=\s*(\w+)` at the given positions, the last word taken greedily |
| MemDirective.Addr | src/scripts/assembler.ts:48 | the first captured group: a `\w+` word spanning the address positions |
| MemDirective.Val | src/scripts/assembler.ts:48 | the second captured group: a `\w+` word spanning the value positions, not followed by another word character |
| MemDirective.MatchAt | src/scripts/assembler.ts:47-48 | a match tried at a position lies at that position and has the directive's shape |
| MemDirective.MatchAssignment | src/scripts/assembler.ts:47 | the `\s*=\s*(\w+)` part, once `mem[`, the address and `]` have matched, has the directive's shape |
| MemDirective.FindMem | src/scripts/assembler.ts:47-48 | the search returns the leftmost match from its start, or reports that nothing matches |
| MemDirective.MatchAtComplete | src/scripts/assembler.ts:47-48 | wherever the shape occurs, the pattern matches there with exactly that shape |
| MemDirective.FindMemLeftmost | src/scripts/assembler.ts:47-52 | a line holding the shape anywhere is matched, at that position or earlier |
| MemDirective.ParseDirective | src/scripts/assembler.ts:47-48 | a line starting with a directive is matched with exactly its address and value words |
| MemDirective.Layout | src/scripts/assembler.ts:47 | where the address and value words of a directive line sit |
| MemDirective.MemError.Message | src/scripts/assembler.ts:51-115 | each directive error's message is not empty |
| MemDirective.EncodeValue | src/scripts/assembler.ts:94-118 | the cell for a value of at most 255 has at least eight bits and two hex digits, both of the value |
| MemDirective.ProcessMemInstruction | src/scripts/assembler.ts:46-130 | an accepted directive writes to an address of at most 15 a cell holding the line, of a value of at most 255 |
| MemDirective.DecimalValueCell | src/scripts/assembler.ts:94-102 | a decimal value gives a byte cell of that value |
| MemDirective.HexValueCell | src/scripts/assembler.ts:103-111 | a hex value keeps its digits padded to two as the hex string, gets eight bits, and gives a byte cell exactly when at most two lower-case digits were written |
| MemDirective.BinaryValueCell | src/scripts/assembler.ts:112-118 | a binary value keeps its digits padded to eight, gets exactly two lower-case hex digits of its value even when more than eight bits were written, and gives a byte cell exactly when at most eight digits were written |
| MemDirective.NoShapeRefused | src/scripts/assembler.ts:48-52 | a line is refused as an invalid memory instruction exactly when the shape occurs nowhere in it |
| MemDirective.DirectiveChecks | src/scripts/assembler.ts:58-118 | the checks run in order: address form, value form, address range 0-15, value range 0-255; then the value's cell is written at the address's value |
| MemDirective.DecimalIsWord | src/scripts/assembler.ts:47 | a decimal numeral is a `\w+` word |
| MemDirective.DecimalDirective | src/scripts/assembler.ts:66-102 | a decimal directive within range gives a byte cell of the value at the address; a large address is refused first, then a large value |
| Assembler.CleanLine | src/scripts/assembler.ts:143 | a cleaned line neither starts nor ends with whitespace |
| Assembler.CleanLineHasNoComment | src/scripts/assembler.ts:143 | a cleaned line contains no `;` |
| Assembler.CommentIgnored | src/scripts/assembler.ts:143 | whatever follows the first `;` does not change the cleaned line |
| Assembler.CleanLines | src/scripts/assembler.ts:143 | the `.map`: each line cleaned, one for one (a definition; its properties are in CleanLinesAreClean, CleanConcat and BlankLineDropped) |
| Assembler.Kept | src/scripts/assembler.ts:144 | the filter's test: not empty and not starting with `;` |
| Assembler.KeepItems | src/scripts/assembler.ts:144 | the filter keeps only lines it accepts, never more lines than it was given |
| Assembler.FilterIsNonEmpty | src/scripts/assembler.ts:144 | a cleaned line is kept exactly when it is not empty |
| Assembler.ItemsAreClean | src/scripts/assembler.ts:141-144 | every item is non-empty, has no `;` and no whitespace at either end |
| Assembler.ValidItems | src/scripts/assembler.ts:141-144 | the items: the lines, cleaned, then filtered |
| Assembler.CleanLinesAreClean | src/scripts/assembler.ts:143 | every cleaned line is empty or clean |
| Assembler.KeptFrom | src/scripts/assembler.ts:144 | every kept item is one of the lines it was kept from |
| Assembler.KeepConcat | src/scripts/assembler.ts:144 | the filter works line by line: the items of two blocks of lines are concatenated |
| Assembler.CleanConcat | src/scripts/assembler.ts:143 | cleaning works line by line |
| Assembler.EmptyDropped | src/scripts/assembler.ts:144 | an empty cleaned line is dropped wherever it stands |
| Assembler.BlankLineDropped | src/scripts/assembler.ts:141-144 | a blank or comment-only line contributes no item, wherever it stands |
| Assembler.ProcessItem | src/scripts/assembler.ts:147-221 | items starting with `mem` go to the directive path, others to the instruction path; placed cells are bytes, stored addresses at most 15, failures carry a message |
| Assembler.Outcomes | src/scripts/assembler.ts:146-147 | one outcome per item, each sound: placed cells are bytes, stored addresses at most 15, failure messages non-empty; by its definition, item k is processed as line k + 1 |
| Assembler.FailureMessage | src/scripts/assembler.ts:154-212 | a failed directive's message starts with `Error processing memory instruction at line N: `, a failed instruction's ends with ` at line N` |
| Assembler.Advance | src/scripts/assembler.ts:149-221 | one loop step: append a placed cell or a stored entry, or record the failure; nothing changes once an error is recorded |
| Assembler.Run | src/scripts/assembler.ts:146-222 | the pass collects at most one cell or entry per outcome |
| Assembler.RunPrefix | src/scripts/assembler.ts:146-222 | the pass over one more outcome is one more step |
| Assembler.FailFast | src/scripts/assembler.ts:157-213 | once an error is recorded, later items change nothing |
| Assembler.RunReport | src/scripts/assembler.ts:146-222 | the pass collects only byte cells and in-range addresses, has no error exactly when nothing failed, and otherwise reports the first failure |
| Assembler.RunContents | src/scripts/assembler.ts:146-222 | without a failure, the pass collects exactly the placed cells and the stored entries, in order |
| Assembler.Collect | src/scripts/assembler.ts:146-222 | the pass over the items' outcomes |
| Assembler.RunFirstFailure | src/scripts/assembler.ts:146-222 | over sound outcomes, when outcome k is the first failure the pass reports exactly its message |
| Assembler.FirstFailure | src/scripts/assembler.ts:146-222 | when item k is the first to fail, the error is its message, built with line k + 1 |
| Assembler.HaltsAtUnknownMnemonic | src/scripts/assembler.ts:166-169 | a program whose first failing item has a mnemonic outside the table halts with `Invalid opcode: M at line N`, N its position among the items |
| Assembler.ErrorIsFirstFailure | src/scripts/assembler.ts:146-222 | the error is empty exactly when every item goes through, and otherwise is the message of the first item that fails, numbered among the items |
| Assembler.EmptyImage | src/scripts/assembler.ts:133-137 | the initial image of sixteen default cells |
| Assembler.EmptyImageIsZero | src/scripts/assembler.ts:133-137 | the initial image has sixteen cells, each a byte cell of value zero from no line |
| Assembler.Store | src/scripts/assembler.ts:224-233 | an array write sets one cell, keeps the others, and grows the array by one at one past the end |
| Assembler.PlaceInstructions | src/scripts/assembler.ts:224-230 | the image has max(16, n) cells: the n instructions first, default cells after |
| Assembler.LastWrite | src/scripts/assembler.ts:231-233 | the cell of the last directive for an address, if any |
| Assembler.LastWriteIsLast | src/scripts/assembler.ts:231-233 | there is no last write exactly when no directive names the address; otherwise it comes from a directive for that address after which no other names it |
| Assembler.CellAfter | src/scripts/assembler.ts:231-233 | what a cell holds after the directives: the last write to it, or its earlier content |
| Assembler.ApplyMemory | src/scripts/assembler.ts:231-233 | the directives keep the image's length; each cell holds the last directive written to it, or what it held before |
| Assembler.AssembleSpec | src/scripts/assembler.ts:132-236 | `assemble` on values: the pass over the items, the instructions placed, the directives applied, the error |
| Assembler.ImageShape | src/scripts/assembler.ts:132-236 | the image has max(16, n) cells, each holds its last directive, else its instruction, else the default cell; every instruction cell is a byte |
| Assembler.CleanProgram | src/scripts/assembler.ts:132-236 | a program whose items all go through has no error, and collects exactly its encoded instructions and its directives, in order |
| Assembler.CollectItems | src/scripts/assembler.ts:146-222 | the item loop, stopping at the first error, computes the pass |
| Assembler.NextOutcome | src/scripts/assembler.ts:146-222 | the pass over the first n + 1 items is one step after the pass over the first n |
| Assembler.RunRest | src/scripts/assembler.ts:157-213 | the pass over a prefix that ends in an error is the whole pass |
| Assembler.PlaceAll | src/scripts/assembler.ts:224-230 | the placing loop builds the image of the specification |
| Assembler.ApplyAll | src/scripts/assembler.ts:231-233 | the directive loop applies the directives as the specification says |
| Assembler.Assemble | src/scripts/assembler.ts:132-236 | `assemble` returns the image and error of the specification |

## Left out

- Numbers are exact integers. `parseInt` on a literal too long for a double, and the rounding or `Infinity` that would follow, are not modelled.
- The `console.log` at src/scripts/assembler.ts:110 is output only and is left out.
- The `in` test against the opcode table is modelled as map membership. Inherited object keys such as `toString` are not modelled.
- Regular expressions are not modelled in general. Only the four patterns the assembler uses are stated as character predicates and a leftmost search.
- A missing operand (no space in the line) and an empty operand (two spaces) are both the empty string. The source treats both alike, since both are falsy.
- The fallback errors "Invalid address format" and "Invalid value format" (src/scripts/assembler.ts:91 and 120) have no constructors. They cannot be reached once the literal check at line 58 has passed.
- "Invalid opcode length" has a constructor, but no entry of the table can reach it.
- The `String(err)` branch at line 155 is not modelled; every error thrown here is an `Error`.
- The image is a `seq<Cell>` threaded through the loops, not an array of shared objects. The source fills the array with one shared default object and replaces cells without mutating them, so aliasing makes no visible difference.
- Unicode is plain `char`; JavaScript strings are UTF-16, and no line here depends on surrogate pairs.
- The user-interface files (App.tsx, CodeEditor.tsx, Header.tsx, highlight.ts, pages) are not part of this model.
