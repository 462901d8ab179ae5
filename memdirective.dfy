/**
 * The memory-directive path of the assembler: a line of the shape
 * `mem[ADDR] = VALUE` writes one byte straight into the image.
 *
 * The shape is the unanchored pattern /mem\[(\w+)\]\s*=\s*(\w+)/: the first
 * position of the line where it matches is used, and whatever follows the
 * value's word characters is ignored.
 */
module MemDirective {
  import opened JsText
  import opened Radix
  import opened Isa

  /** The regular-expression class `\w`. */
  predicate IsWordChar(c: char) {
    'a' <= c <= 'z' || 'A' <= c <= 'Z' || '0' <= c <= '9' || c == '_'
  }

  /** A non-empty run of word characters: what `\w+` matches. */
  predicate IsWord(s: string) {
    |s| >= 1 && forall i :: 0 <= i < |s| ==> IsWordChar(s[i])
  }

  predicate WordsIn(s: string, lo: nat, hi: nat)
    requires lo <= hi <= |s|
  {
    forall i :: lo <= i < hi ==> IsWordChar(s[i])
  }

  predicate SpacesIn(s: string, lo: nat, hi: nat)
    requires lo <= hi <= |s|
  {
    forall i :: lo <= i < hi ==> IsSpace(s[i])
  }

  /** Where the run of word characters that starts at `i` ends. */
  function WordEnd(s: string, i: nat): (j: nat)
    requires i <= |s|
    ensures i <= j <= |s| && WordsIn(s, i, j)
    ensures j == |s| || !IsWordChar(s[j])
    decreases |s| - i
  {
    if i < |s| && IsWordChar(s[i]) then WordEnd(s, i + 1) else i
  }

  /** Where the run of whitespace that starts at `i` ends. */
  function SpaceEnd(s: string, i: nat): (j: nat)
    requires i <= |s|
    ensures i <= j <= |s| && SpacesIn(s, i, j)
    ensures j == |s| || !IsSpace(s[j])
    decreases |s| - i
  {
    if i < |s| && IsSpace(s[i]) then SpaceEnd(s, i + 1) else i
  }

  /**
   * Where a match of the directive pattern lies in a line: it starts at `at`
   * with `mem[`, the address word runs up to the `]` at `close`, the `=` is
   * at `eq`, and the value word is `[valStart, valEnd)`.
   */
  datatype Span = Span(at: nat, close: nat, eq: nat, valStart: nat, valEnd: nat)

  /**
   * `s` holds the pattern at `m`: `mem[`, a word, `]`, whitespace, `=`,
   * whitespace, and a word that is not followed by another word character
   * (the pattern's last `\w+` is greedy).
   */
  predicate ShapeAt(s: string, m: Span) {
    && m.at + 4 < m.close < m.eq < m.valStart < m.valEnd <= |s|
    && s[m.at] == 'm' && s[m.at + 1] == 'e' && s[m.at + 2] == 'm' && s[m.at + 3] == '['
    && WordsIn(s, m.at + 4, m.close) && s[m.close] == ']'
    && SpacesIn(s, m.close + 1, m.eq) && s[m.eq] == '='
    && SpacesIn(s, m.eq + 1, m.valStart) && WordsIn(s, m.valStart, m.valEnd)
    && (m.valEnd == |s| || !IsWordChar(s[m.valEnd]))
  }

  /** The address word of a match. */
  function Addr(s: string, m: Span): (a: string)
    requires ShapeAt(s, m)
    ensures IsWord(a) && |a| == m.close - m.at - 4
  {
    var a := s[m.at + 4..m.close];
    assert forall k :: 0 <= k < |a| ==> a[k] == s[m.at + 4 + k];
    a
  }

  /** The value word of a match. */
  function Val(s: string, m: Span): (v: string)
    requires ShapeAt(s, m)
    ensures IsWord(v) && |v| == m.valEnd - m.valStart
    ensures m.valEnd == |s| || !IsWordChar(s[m.valEnd])
  {
    var v := s[m.valStart..m.valEnd];
    assert forall k :: 0 <= k < |v| ==> v[k] == s[m.valStart + k];
    v
  }

  /** The pattern tried at position `p` only. */
  function MatchAt(s: string, p: nat): (r: Option<Span>)
    requires p <= |s|
    ensures r.Some? ==> r.value.at == p && ShapeAt(s, r.value)
  {
    if p + 4 <= |s| && s[p] == 'm' && s[p + 1] == 'e' && s[p + 2] == 'm' && s[p + 3] == '[' then
      var a := WordEnd(s, p + 4);
      if a > p + 4 && a < |s| && s[a] == ']' then MatchAssignment(s, p, a) else None
    else None
  }

  /** The rest of the pattern, once `mem[`, the address word and `]` have matched at `p` up to `a`. */
  function MatchAssignment(s: string, p: nat, a: nat): (r: Option<Span>)
    requires p + 4 < a < |s| && s[p] == 'm' && s[p + 1] == 'e' && s[p + 2] == 'm' && s[p + 3] == '['
    requires WordsIn(s, p + 4, a) && s[a] == ']'
    ensures r.Some? ==> r.value.at == p && r.value.close == a && ShapeAt(s, r.value)
  {
    var e := SpaceEnd(s, a + 1);
    if e < |s| && s[e] == '=' then
      var v := SpaceEnd(s, e + 1);
      var w := WordEnd(s, v);
      if w > v then Some(Span(p, a, e, v, w)) else None
    else None
  }

  /** The pattern matches at no position in `[lo, hi)`. */
  predicate NoMatchIn(s: string, lo: nat, hi: nat)
    requires hi <= |s| + 1
  {
    forall q :: lo <= q < hi ==> MatchAt(s, q).None?
  }

  /** The leftmost position from `p` on where the pattern matches. */
  function FindMem(s: string, p: nat): (r: Option<Span>)
    requires p <= |s|
    ensures r.None? ==> NoMatchIn(s, p, |s| + 1)
    ensures r.Some? ==> p <= r.value.at <= |s| && MatchAt(s, r.value.at) == r && NoMatchIn(s, p, r.value.at)
    decreases |s| - p
  {
    var here := MatchAt(s, p);
    if here.Some? then here
    else if p == |s| then None
    else
      var r := FindMem(s, p + 1);
      NoMatchExtend(s, p, if r.None? then |s| + 1 else r.value.at);
      r
  }

  lemma NoMatchExtend(s: string, p: nat, hi: nat)
    requires p < hi <= |s| + 1 && p <= |s|
    requires MatchAt(s, p).None? && NoMatchIn(s, p + 1, hi)
    ensures NoMatchIn(s, p, hi)
  {
    forall q | p <= q < hi ensures MatchAt(s, q).None? {
      if q > p { assert p + 1 <= q < hi; }
    }
  }

  lemma WordEndAt(s: string, i: nat, j: nat)
    requires i <= j <= |s| && WordsIn(s, i, j) && (j == |s| || !IsWordChar(s[j]))
    ensures WordEnd(s, i) == j
    decreases j - i
  {
    if i < j { WordEndAt(s, i + 1, j); }
  }

  lemma SpaceEndAt(s: string, i: nat, j: nat)
    requires i <= j <= |s| && SpacesIn(s, i, j) && (j == |s| || !IsSpace(s[j]))
    ensures SpaceEnd(s, i) == j
    decreases j - i
  {
    if i < j { SpaceEndAt(s, i + 1, j); }
  }

  /** Wherever the directive shape occurs, the pattern matches it, and nothing else, there. */
  lemma MatchAtComplete(s: string, m: Span)
    requires ShapeAt(s, m)
    ensures MatchAt(s, m.at) == Some(m)
  {
    WordEndAt(s, m.at + 4, m.close);
    AssignmentComplete(s, m);
  }

  lemma AssignmentComplete(s: string, m: Span)
    requires ShapeAt(s, m)
    ensures MatchAssignment(s, m.at, m.close) == Some(m)
  {
    SpaceEndAt(s, m.close + 1, m.eq);
    SpaceEndAt(s, m.eq + 1, m.valStart);
    WordEndAt(s, m.valStart, m.valEnd);
    assert m == Span(m.at, m.close, m.eq, m.valStart, m.valEnd);
  }

  /**
   * The search finds a directive whenever the line holds one, and never one
   * that starts later than it.
   */
  lemma FindMemLeftmost(s: string, m: Span)
    requires ShapeAt(s, m)
    ensures FindMem(s, 0).Some? && FindMem(s, 0).value.at <= m.at
  {
    MatchAtComplete(s, m);
  }

  /**
   * A line holding a directive with address word `addr`, value word `val`
   * and the given whitespace, followed by `rest`.
   */
  function DirectiveLine(addr: string, sp1: string, sp2: string, val: string, rest: string): string {
    "mem[" + (addr + ("]" + (sp1 + ("=" + (sp2 + (val + rest))))))
  }

  /**
   * A line that starts with a well-formed directive, and does not continue
   * the value word after it, is matched at its start with exactly that
   * address and value.
   */
  lemma ParseDirective(addr: string, sp1: string, sp2: string, val: string, rest: string)
    requires IsWord(addr) && IsWord(val) && AllSpace(sp1) && AllSpace(sp2)
    requires rest == [] || !IsWordChar(rest[0])
    ensures var s := DirectiveLine(addr, sp1, sp2, val, rest);
      var r := FindMem(s, 0);
      r.Some? && ShapeAt(s, r.value) && Addr(s, r.value) == addr && Val(s, r.value) == val
  {
    var s := DirectiveLine(addr, sp1, sp2, val, rest);
    var m := Layout(addr, sp1, sp2, val, rest);
    MatchAtComplete(s, m);
    assert FindMem(s, 0) == Some(m);
  }

  /** Where the pieces of a directive line sit. */
  lemma Layout(addr: string, sp1: string, sp2: string, val: string, rest: string) returns (m: Span)
    requires IsWord(addr) && IsWord(val) && AllSpace(sp1) && AllSpace(sp2)
    requires rest == [] || !IsWordChar(rest[0])
    ensures var s := DirectiveLine(addr, sp1, sp2, val, rest);
      m.at == 0 && ShapeAt(s, m) && s[4..m.close] == addr && s[m.valStart..m.valEnd] == val
  {
    var x6 := val + rest;
    var x5 := sp2 + x6;
    var x4 := "=" + x5;
    var x3 := sp1 + x4;
    var x2 := "]" + x3;
    var x1 := addr + x2;
    var s := DirectiveLine(addr, sp1, sp2, val, rest);
    Opening(s, x1);
    var a := PeelWord(s, 4, addr, x2);
    var a1 := PeelChar(s, a, ']', x3);
    var e := PeelSpaces(s, a1, sp1, x4);
    var e1 := PeelChar(s, e, '=', x5);
    var v := PeelSpaces(s, e1, sp2, x6);
    var w := PeelWord(s, v, val, rest);
    if w < |s| { assert s[w] == s[w..][0]; }
    m := Span(0, a, e, v, w);
  }

  /** A line that is `mem[` followed by `t`. */
  lemma Opening(s: string, t: string)
    requires s == "mem[" + t
    ensures |s| >= 4 && s[0] == 'm' && s[1] == 'e' && s[2] == 'm' && s[3] == '[' && s[4..] == t
  {
  }

  /** Where `s` goes on at `lo` with the word `y` and then `t`, the word ends at `hi`. */
  lemma PeelWord(s: string, lo: nat, y: string, t: string) returns (hi: nat)
    requires lo <= |s| && s[lo..] == y + t && IsWord(y)
    ensures hi == lo + |y| <= |s| && WordsIn(s, lo, hi) && s[lo..hi] == y && s[hi..] == t
  {
    hi := lo + |y|;
    assert s[lo..hi] == s[lo..][..|y|];
    assert s[hi..] == s[lo..][|y|..];
    forall i | lo <= i < hi ensures IsWordChar(s[i]) { assert s[i] == y[i - lo]; }
  }

  /** Where `s` goes on at `lo` with the whitespace `y` and then `t`, the whitespace ends at `hi`. */
  lemma PeelSpaces(s: string, lo: nat, y: string, t: string) returns (hi: nat)
    requires lo <= |s| && s[lo..] == y + t && AllSpace(y)
    ensures hi == lo + |y| <= |s| && SpacesIn(s, lo, hi) && s[hi..] == t
  {
    hi := lo + |y|;
    assert s[hi..] == s[lo..][|y|..];
    forall i | lo <= i < hi ensures IsSpace(s[i]) { assert s[i] == y[i - lo]; }
  }

  /** Where `s` goes on at `lo` with the character `c` and then `t`. */
  lemma PeelChar(s: string, lo: nat, c: char, t: string) returns (hi: nat)
    requires lo <= |s| && s[lo..] == [c] + t
    ensures hi == lo + 1 <= |s| && s[lo] == c && s[hi..] == t
  {
    hi := lo + 1;
    assert s[lo] == s[lo..][0];
    assert s[hi..] == s[lo..][1..];
  }

  /** Why a memory directive was refused; each reason names the token it reports. */
  datatype MemError =
    | InvalidMemoryInstruction(text: string)
    | InvalidAddressFormat(addr: string)
    | InvalidValueFormat(val: string)
    | AddressOutOfRange(addr: string)
    | ValueOutOfRange(val: string)
  {
    /** The message `processMemInstruction` throws for this error; it is never empty. */
    function Message(): (m: string)
      ensures m != []
    {
      match this
      case InvalidMemoryInstruction(t) => "Invalid memory instruction: " + t
      case InvalidAddressFormat(a) => "Invalid memory address format: " + a
      case InvalidValueFormat(v) => "Invalid memory value format: " + v
      case AddressOutOfRange(a) => "Memory address out of range (0-15): " + a
      case ValueOutOfRange(v) => "Memory value out of range (0-255): " + v
    }
  }

  /** A directive that was accepted: the cell it writes and the address it writes it to. */
  datatype MemEntry = MemEntry(cell: Cell, address: nat)

  /**
   * The cell for a value literal of at most 255, built as its form dictates:
   * a decimal value is converted both ways, a hexadecimal one keeps its digits
   * as the hex string, a binary one keeps its digits as the bit string.
   */
  function EncodeValue(item: string, val: string): (c: Cell)
    requires IsLiteral(val) && LiteralValue(val) <= 255
    ensures c.instruction == item
    ensures |c.binary| >= 8 && IsDigitsOf(c.binary, 2) && |c.hex| >= 2 && IsDigitsOf(c.hex, 16)
    ensures ValueOf(c.binary, 2) == LiteralValue(val) && ValueOf(c.hex, 16) == LiteralValue(val)
  {
    Forms(val);
    var d := Digits(val);
    if IsDecimalLiteral(val) then
      PadStartValue(val, 2, 10);
      var decimalVal := ValueOf(PadStart(val, 2, '0'), 10);
      var bits := DecimalToBinary(decimalVal);
      PadStartValue(bits, 8, 2);
      Cell(item, PadStart(bits, 8, '0'), DecimalToHex(decimalVal))
    else if IsHexLiteral(val) then
      PadStartValue(d, 2, 16);
      var hexVal := PadStart(val[2..], 2, '0');
      var bits := HexToBinary(hexVal);
      PadStartValue(bits, 8, 2);
      Cell(item, PadStart(bits, 8, '0'), hexVal)
    else
      PadStartValue(d, 8, 2);
      var binaryVal := PadStart(val[2..], 8, '0');
      Cell(item, binaryVal, BinaryToHex(binaryVal))
  }

  /**
   * `processMemInstruction`: the first directive shape in the line, checked
   * for literal form (address first), then for range (address first).
   */
  function ProcessMemInstruction(item: string): (r: Result<MemEntry, MemError>)
    ensures r.Ok? ==> r.value.address <= 15 && r.value.cell.instruction == item
    ensures r.Ok? ==> var c := r.value.cell;
      && |c.binary| >= 8 && IsDigitsOf(c.binary, 2) && |c.hex| >= 2 && IsDigitsOf(c.hex, 16)
      && ValueOf(c.binary, 2) == ValueOf(c.hex, 16) <= 255
  {
    match FindMem(item, 0)
    case None => Err(InvalidMemoryInstruction(item))
    case Some(m) =>
      var addr, val := Addr(item, m), Val(item, m);
      if !IsLiteral(addr) then Err(InvalidAddressFormat(addr))
      else if !IsLiteral(val) then Err(InvalidValueFormat(val))
      else if LiteralValue(addr) > 15 then Err(AddressOutOfRange(addr))
      else if LiteralValue(val) > 255 then Err(ValueOutOfRange(val))
      else Ok(MemEntry(EncodeValue(item, val), LiteralValue(addr)))
  }

  /** A decimal value becomes a byte cell of that value, converted both ways. */
  lemma DecimalValueCell(item: string, val: string)
    requires IsDecimalLiteral(val) && LiteralValue(val) <= 255
    ensures var c := EncodeValue(item, val);
      IsByteCell(c) && ValueOf(c.binary, 2) == LiteralValue(val)
  {
    Forms(val);
    PadStartValue(val, 2, 10);
    ByteBits(LiteralValue(val));
  }

  /** The tail of a string without upper-case hexadecimal letters has none either. */
  lemma SuffixLowerCase(r: string, d: string)
    requires |d| <= |r| && r[|r| - |d|..] == d && IsLowerCase(r)
    ensures IsLowerCase(d)
  {
    forall i | 0 <= i < |d| ensures !('A' <= d[i] <= 'F') {
      assert d[i] == r[|r| - |d| + i];
    }
  }

  /**
   * A hexadecimal value keeps its digits, case and all, as the hex string
   * (padded to two), and gets eight bits of the same value; the cell is a
   * byte cell exactly when those digits are at most two lower-case ones.
   */
  lemma HexValueCell(item: string, val: string)
    requires IsHexLiteral(val) && LiteralValue(val) <= 255
    ensures var c := EncodeValue(item, val);
      && c.hex == PadStart(Digits(val), 2, '0')
      && |c.binary| == 8 && ValueOf(c.binary, 2) == LiteralValue(val)
      && (IsByteCell(c) <==> |Digits(val)| <= 2 && IsLowerCase(Digits(val)))
  {
    Forms(val);
    var d := Digits(val);
    var hexVal := PadStart(d, 2, '0');
    PadStartValue(d, 2, 16);
    var bits := HexToBinary(hexVal);
    ByteBits(ValueOf(hexVal, 16));
    var c := EncodeValue(item, val);
    assert c.hex == hexVal && c.binary == PadStart(bits, 8, '0');
    if |d| <= 2 && IsLowerCase(d) {
      PadStartLowerCase(d, 2);
    }
    if IsLowerCase(hexVal) {
      SuffixLowerCase(hexVal, d);
    }
  }

  /**
   * A binary value keeps its digits as the bit string (padded to eight) and
   * gets the lower-case hexadecimal of their value; the cell is a byte cell
   * exactly when there are at most eight digits.
   */
  lemma BinaryValueCell(item: string, val: string)
    requires IsBinaryLiteral(val) && LiteralValue(val) <= 255
    ensures var c := EncodeValue(item, val);
      && c.binary == PadStart(Digits(val), 8, '0')
      && |c.hex| == 2 && ValueOf(c.hex, 16) == LiteralValue(val) && IsLowerCase(c.hex)
      && (IsByteCell(c) <==> |Digits(val)| <= 8)
  {
    Forms(val);
    PadStartValue(Digits(val), 8, 2);
  }

  /** A line without the directive shape anywhere is refused as an invalid memory instruction, and only such a line. */
  lemma NoShapeRefused(item: string)
    ensures (forall m :: !ShapeAt(item, m)) <==> ProcessMemInstruction(item) == Err(InvalidMemoryInstruction(item))
  {
    match FindMem(item, 0)
    case None =>
      forall m | ShapeAt(item, m) ensures false { FindMemLeftmost(item, m); }
    case Some(m) =>
  }

  /**
   * A line that starts with a directive is checked in the assembler's order:
   * the address's form, the value's form, the address's range (0-15), the
   * value's range (0-255); once all pass it is written at the address's
   * value, with a cell of the value's value.
   */
  lemma DirectiveChecks(addr: string, sp1: string, sp2: string, val: string, rest: string)
    requires IsWord(addr) && IsWord(val) && AllSpace(sp1) && AllSpace(sp2)
    requires rest == [] || !IsWordChar(rest[0])
    ensures var s := DirectiveLine(addr, sp1, sp2, val, rest);
      var r := ProcessMemInstruction(s);
      && (!IsLiteral(addr) ==> r == Err(InvalidAddressFormat(addr)))
      && (IsLiteral(addr) && !IsLiteral(val) ==> r == Err(InvalidValueFormat(val)))
      && (IsLiteral(addr) && IsLiteral(val) && LiteralValue(addr) > 15 ==> r == Err(AddressOutOfRange(addr)))
      && (IsLiteral(addr) && IsLiteral(val) && LiteralValue(addr) <= 15 && LiteralValue(val) > 255 ==>
            r == Err(ValueOutOfRange(val)))
      && (IsLiteral(addr) && IsLiteral(val) && LiteralValue(addr) <= 15 && LiteralValue(val) <= 255 ==>
            r == Ok(MemEntry(EncodeValue(s, val), LiteralValue(addr))))
  {
    ParseDirective(addr, sp1, sp2, val, rest);
  }

  /** A decimal literal is a word. */
  lemma DecimalIsWord(n: nat)
    ensures IsWord(ToRadix(n, 10))
  {
    var d := ToRadix(n, 10);
    forall i | 0 <= i < |d| ensures IsWordChar(d[i]) {
      assert IsDigitOf(d[i], 10);
    }
  }

  /**
   * `mem[A] = V` with both written in decimal: an address of at most 15 and a
   * value of at most 255 give a byte cell of value V at address A, a larger
   * address is refused first, and then a larger value.
   */
  lemma DecimalDirective(a: nat, v: nat)
    ensures var line := DirectiveLine(ToRadix(a, 10), " ", " ", ToRadix(v, 10), "");
      var r := ProcessMemInstruction(line);
      && (a <= 15 && v <= 255 ==>
            r.Ok? && r.value.address == a && r.value.cell.instruction == line
            && IsByteCell(r.value.cell) && ValueOf(r.value.cell.binary, 2) == v)
      && (a > 15 ==> r == Err(AddressOutOfRange(ToRadix(a, 10))))
      && (a <= 15 && v > 255 ==> r == Err(ValueOutOfRange(ToRadix(v, 10))))
  {
    var addr, val := ToRadix(a, 10), ToRadix(v, 10);
    var line := DirectiveLine(addr, " ", " ", val, "");
    DecimalIsWord(a);
    DecimalIsWord(v);
    DecimalRoundTrip(a);
    DecimalRoundTrip(v);
    DirectiveChecks(addr, " ", " ", val, "");
    if a <= 15 && v <= 255 {
      DecimalValueCell(line, val);
    }
  }
}
