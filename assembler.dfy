/**
 * `assemble`: the program text is cut into lines, each line loses its
 * comment and surrounding whitespace, blank lines are dropped, and the
 * remaining items are processed in order until the first error. Instructions
 * fill the image from cell 0; memory directives are then applied on top, in
 * order, so a later directive for an address wins over an earlier one and
 * over the instruction placed there.
 */
module Assembler {
  import opened JsText
  import opened Radix
  import opened Isa
  import opened Encoder
  import opened MemDirective

  // Preprocessing: a map over the lines, then a filter.

  lemma SliceAvoids(s: string, i: nat, j: nat, c: char)
    requires i <= j <= |s| && c !in s
    ensures c !in s[i..j]
  {
    forall k | 0 <= k < j - i ensures s[i..j][k] != c { assert s[i..j][k] == s[i + k]; }
  }

  /** A line with its comment cut off at the first `;` and its surrounding whitespace trimmed. */
  function CleanLine(line: string): (item: string)
    ensures item == [] || (!IsSpace(item[0]) && !IsSpace(item[|item| - 1]))
  {
    Trim(Split(line, ';')[0])
  }

  /** A cleaned line holds no `;`. */
  lemma CleanLineHasNoComment(line: string)
    ensures ';' !in CleanLine(line)
  {
    var code := Split(line, ';')[0];
    TrimSlice(code);
    var i, j :| 0 <= i <= j <= |code| && Trim(code) == code[i..j];
    SliceAvoids(code, i, j, ';');
  }

  /** Everything from the first `;` on is a comment and does not matter. */
  lemma CommentIgnored(code: string, comment: string)
    requires ';' !in code
    ensures CleanLine(code + [';'] + comment) == CleanLine(code)
  {
    SplitAtFirst(code, ';', comment);
    SplitNoSeparator(code, ';');
  }

  /** Every line, cleaned. */
  function CleanLines(lines: seq<string>): seq<string> {
    seq(|lines|, k requires 0 <= k < |lines| => CleanLine(lines[k]))
  }

  /** Whether the line filter keeps a cleaned line. */
  predicate Kept(item: string) {
    item != "" && !StartsWith(item, ";")
  }

  /** The cleaned lines the filter keeps, in order. */
  function KeepItems(xs: seq<string>): (items: seq<string>)
    ensures |items| <= |xs|
    ensures forall k :: 0 <= k < |items| ==> Kept(items[k])
  {
    if xs == [] then []
    else (if Kept(xs[0]) then [xs[0]] else []) + KeepItems(xs[1..])
  }

  /** The items `assemble` works through. */
  function ValidItems(program: string): seq<string> {
    KeepItems(CleanLines(Split(program, '\n')))
  }

  /**
   * The `startsWith(";")` half of the filter never drops anything: a cleaned
   * line is kept exactly when it is not empty.
   */
  lemma FilterIsNonEmpty(line: string)
    ensures Kept(CleanLine(line)) <==> CleanLine(line) != []
  {
    var item := CleanLine(line);
    CleanLineHasNoComment(line);
    if item != [] { assert item[0] != ';'; assert !StartsWith(item, ";"); }
  }

  /** Every item is a non-empty cleaned line: no `;`, no whitespace at either end. */
  lemma ItemsAreClean(program: string)
    ensures forall k :: 0 <= k < |ValidItems(program)| ==> IsCleanItem(ValidItems(program)[k])
  {
    var xs := CleanLines(Split(program, '\n'));
    CleanLinesAreClean(Split(program, '\n'));
    forall k | 0 <= k < |KeepItems(xs)| ensures IsCleanItem(KeepItems(xs)[k]) {
      KeptAreClean(xs, k);
    }
  }

  /** A non-empty text with no `;` and no whitespace at either end. */
  predicate IsCleanItem(item: string) {
    item != [] && ';' !in item && !IsSpace(item[0]) && !IsSpace(item[|item| - 1])
  }

  /** Every cleaned line is empty or clean. */
  lemma CleanLinesAreClean(lines: seq<string>)
    ensures forall j :: 0 <= j < |lines| ==> CleanLines(lines)[j] == [] || IsCleanItem(CleanLines(lines)[j])
  {
    forall j | 0 <= j < |lines| ensures CleanLines(lines)[j] == [] || IsCleanItem(CleanLines(lines)[j]) {
      CleanLineHasNoComment(lines[j]);
    }
  }

  lemma KeptAreClean(xs: seq<string>, k: nat)
    requires k < |KeepItems(xs)|
    requires forall j :: 0 <= j < |xs| ==> xs[j] == [] || IsCleanItem(xs[j])
    ensures IsCleanItem(KeepItems(xs)[k])
  {
    var j := KeptFrom(xs, k);
  }

  /** Every kept item is one of the lines it was kept from. */
  lemma {:induction false} KeptFrom(xs: seq<string>, k: nat) returns (j: nat)
    requires k < |KeepItems(xs)|
    ensures j < |xs| && KeepItems(xs)[k] == xs[j]
  {
    var rest := KeepItems(xs[1..]);
    assert KeepItems(xs) == (if Kept(xs[0]) then [xs[0]] else []) + rest;
    if Kept(xs[0]) && k == 0 {
      j := 0;
    } else {
      var k' := if Kept(xs[0]) then k - 1 else k;
      assert KeepItems(xs)[k] == rest[k'];
      var j' := KeptFrom(xs[1..], k');
      j := j' + 1;
    }
  }

  /** Keeping is decided line by line, so the items of two blocks of lines are concatenated. */
  lemma {:induction false} KeepConcat(a: seq<string>, b: seq<string>)
    ensures KeepItems(a + b) == KeepItems(a) + KeepItems(b)
  {
    if a == [] {
      assert a + b == b;
    } else {
      assert (a + b)[0] == a[0];
      assert (a + b)[1..] == a[1..] + b;
      KeepConcat(a[1..], b);
    }
  }

  /** Cleaning is line by line, so the cleaned lines of two blocks are concatenated. */
  lemma CleanConcat(a: seq<string>, b: seq<string>)
    ensures CleanLines(a + b) == CleanLines(a) + CleanLines(b)
  {
    forall k | |a| <= k < |a + b| ensures (a + b)[k] == b[k - |a|] { }
  }

  /** An empty cleaned line is dropped by the filter, wherever it stands. */
  lemma EmptyDropped(xs: seq<string>, ys: seq<string>)
    ensures KeepItems(xs + [[]] + ys) == KeepItems(xs + ys)
  {
    KeepConcat(xs + [[]], ys);
    KeepConcat(xs, [[]]);
    KeepConcat(xs, ys);
    assert KeepItems([[]]) == [] + KeepItems([]);
  }

  /** A blank or comment-only line contributes no item, wherever it stands. */
  lemma BlankLineDropped(before: seq<string>, line: string, after: seq<string>)
    requires CleanLine(line) == []
    ensures KeepItems(CleanLines(before + [line] + after)) == KeepItems(CleanLines(before + after))
  {
    var cb, ca := CleanLines(before), CleanLines(after);
    assert CleanLines([line]) == [[]];
    CleanConcat(before + [line], after);
    CleanConcat(before, [line]);
    CleanConcat(before, after);
    EmptyDropped(cb, ca);
  }

  // Processing one item.

  /** What one item does: place an instruction, store a directive's byte, or stop with an error message. */
  datatype Outcome = Placed(cell: Cell) | Stored(entry: MemEntry) | Failed(message: string)

  /** What every outcome of `ProcessItem` satisfies. */
  predicate Sound(o: Outcome) {
    match o
    case Placed(c) => IsByteCell(c)
    case Stored(e) => e.address <= 15
    case Failed(msg) => msg != []
  }

  /**
   * The loop body for the item at (one-based) line `line`: items starting
   * with `mem` are memory directives, all others instructions.
   */
  function ProcessItem(item: string, line: nat): (o: Outcome)
    ensures Sound(o)
    ensures o.Placed? ==> !StartsWith(item, "mem") && EncodeInstruction(item) == Ok(o.cell)
    ensures o.Stored? ==> StartsWith(item, "mem") && ProcessMemInstruction(item) == Ok(o.entry)
    ensures o.Failed? <==> (if StartsWith(item, "mem") then ProcessMemInstruction(item).Err? else EncodeInstruction(item).Err?)
  {
    if StartsWith(item, "mem") then
      match ProcessMemInstruction(item)
      case Ok(e) => Stored(e)
      case Err(e) => Failed("Error processing memory instruction at line " + ToRadix(line, 10) + ": " + e.Message())
    else
      match EncodeInstruction(item)
      case Ok(c) => Placed(c)
      case Err(e) => Failed(e.Message(line))
  }

  /**
   * A failure's message names the line: a directive's message starts with
   * `Error processing memory instruction at line N: `, an instruction's ends
   * with ` at line N`.
   */
  lemma FailureMessage(item: string, line: nat)
    requires ProcessItem(item, line).Failed?
    ensures var msg := ProcessItem(item, line).message;
      && (StartsWith(item, "mem") ==>
            StartsWith(msg, "Error processing memory instruction at line " + ToRadix(line, 10) + ": "))
      && (!StartsWith(item, "mem") ==>
            var t := " at line " + ToRadix(line, 10); |t| <= |msg| && msg[|msg| - |t|..] == t)
  {
  }

  /** The outcome of each item, item `k` being reported as line `k + 1`. */
  function Outcomes(items: seq<string>): (os: seq<Outcome>)
    ensures |os| == |items|
    ensures forall k :: 0 <= k < |os| ==> Sound(os[k])
  {
    seq(|items|, k requires 0 <= k < |items| => ProcessItem(items[k], k + 1))
  }

  /** Item `k`'s outcome is computed with line number `k + 1`. */
  lemma OutcomesAt(items: seq<string>)
    ensures forall k :: 0 <= k < |items| ==> Outcomes(items)[k] == ProcessItem(items[k], k + 1)
  {
  }

  // The pass, on outcomes.

  /** The state of the pass: the instructions and directives collected so far and the error message, empty while there is none. */
  datatype Pass = Pass(instructions: seq<Cell>, memory: seq<MemEntry>, error: string)

  /** One step of the pass: nothing changes once there is an error. */
  function Advance(p: Pass, o: Outcome): Pass {
    if p.error != "" then p
    else
      match o
      case Placed(c) => Pass(p.instructions + [c], p.memory, p.error)
      case Stored(e) => Pass(p.instructions, p.memory + [e], p.error)
      case Failed(msg) => Pass(p.instructions, p.memory, msg)
  }

  /** The pass over a sequence of outcomes, stopping at the first failure. */
  function Run(os: seq<Outcome>): (p: Pass)
    ensures |p.instructions| + |p.memory| <= |os|
  {
    if os == [] then Pass([], [], "") else Advance(Run(os[..|os| - 1]), os[|os| - 1])
  }

  /** The pass over one more outcome is one more step. */
  lemma RunPrefix(os: seq<Outcome>, n: nat)
    requires n < |os|
    ensures Run(os[..n + 1]) == Advance(Run(os[..n]), os[n])
  {
    assert os[..n + 1][..n] == os[..n];
  }

  /** The cells of the placed outcomes, in order. */
  function PlacedCells(os: seq<Outcome>): seq<Cell> {
    if os == [] then []
    else PlacedCells(os[..|os| - 1]) + match os[|os| - 1] case Placed(c) => [c] case _ => []
  }

  /** The entries of the stored outcomes, in order. */
  function StoredEntries(os: seq<Outcome>): seq<MemEntry> {
    if os == [] then []
    else StoredEntries(os[..|os| - 1]) + match os[|os| - 1] case Stored(e) => [e] case _ => []
  }

  lemma PrefixOfAppend<T>(xs: seq<T>, ys: seq<T>)
    requires ys != []
    ensures (xs + ys)[..|xs + ys| - 1] == xs + ys[..|ys| - 1]
    ensures (xs + ys)[|xs + ys| - 1] == ys[|ys| - 1]
  {
  }

  /** Once an error has been recorded, later outcomes change nothing. */
  lemma {:induction false} FailFast(xs: seq<Outcome>, ys: seq<Outcome>)
    requires Run(xs).error != ""
    ensures Run(xs + ys) == Run(xs)
    decreases |ys|
  {
    if ys == [] {
      assert xs + ys == xs;
    } else {
      PrefixOfAppend(xs, ys);
      FailFast(xs, ys[..|ys| - 1]);
    }
  }

  /**
   * Over sound outcomes, the pass only collects byte cells and in-range
   * addresses, and it reports no error exactly when no outcome is a failure;
   * otherwise it reports the message of the first failure.
   */
  lemma {:induction false} RunReport(os: seq<Outcome>)
    requires forall k :: 0 <= k < |os| ==> Sound(os[k])
    ensures var p := Run(os);
      && (forall k :: 0 <= k < |p.instructions| ==> IsByteCell(p.instructions[k]))
      && (forall k :: 0 <= k < |p.memory| ==> p.memory[k].address <= 15)
      && (p.error == "" <==> forall k :: 0 <= k < |os| ==> !os[k].Failed?)
      && (p.error != "" ==> exists k :: 0 <= k < |os| && os[k] == Failed(p.error)
                                && forall j :: 0 <= j < k ==> !os[j].Failed?)
    decreases |os|
  {
    if os != [] {
      var init, last := os[..|os| - 1], |os| - 1;
      assert forall k :: 0 <= k < |init| ==> init[k] == os[k];
      RunReport(init);
      if Run(init).error != "" {
        var k :| 0 <= k < |init| && init[k] == Failed(Run(init).error) && forall j :: 0 <= j < k ==> !init[j].Failed?;
        assert os[k] == Failed(Run(os).error);
      } else if os[last].Failed? {
        assert os[last] == Failed(Run(os).error);
      }
    }
  }

  /**
   * Without a failure, the pass collects exactly the placed cells and the
   * stored entries, in order.
   */
  lemma {:induction false} RunContents(os: seq<Outcome>)
    requires forall k :: 0 <= k < |os| ==> os[k].Placed? || os[k].Stored?
    ensures Run(os) == Pass(PlacedCells(os), StoredEntries(os), "")
    decreases |os|
  {
    if os != [] {
      var init := os[..|os| - 1];
      assert forall k :: 0 <= k < |init| ==> init[k] == os[k];
      RunContents(init);
    }
  }

  /** The pass over the items. */
  function Collect(items: seq<string>): Pass {
    Run(Outcomes(items))
  }

  /**
   * The error is empty exactly when every item goes through; otherwise it is
   * the message of the first item that fails, numbered by its position
   * among the items.
   */
  lemma ErrorIsFirstFailure(items: seq<string>)
    ensures Collect(items).error == "" <==> forall k :: 0 <= k < |items| ==> !ProcessItem(items[k], k + 1).Failed?
    ensures Collect(items).error != "" ==>
      exists k :: 0 <= k < |items| && ProcessItem(items[k], k + 1) == Failed(Collect(items).error)
        && forall j :: 0 <= j < k ==> !ProcessItem(items[j], j + 1).Failed?
  {
    var os := Outcomes(items);
    RunReport(os);
    OutcomesAt(items);
  }

  /** When item `k` is the first to fail, the error is its message. */
  lemma FirstFailure(items: seq<string>, k: nat)
    requires k < |items| && ProcessItem(items[k], k + 1).Failed?
    requires forall j :: 0 <= j < k ==> !ProcessItem(items[j], j + 1).Failed?
    ensures Collect(items).error == ProcessItem(items[k], k + 1).message
  {
    OutcomesAt(items);
    RunFirstFailure(Outcomes(items), k);
  }

  /** Over sound outcomes, when outcome `k` is the first failure, the pass reports its message. */
  lemma RunFirstFailure(os: seq<Outcome>, k: nat)
    requires forall j :: 0 <= j < |os| ==> Sound(os[j])
    requires k < |os| && os[k].Failed? && forall j :: 0 <= j < k ==> !os[j].Failed?
    ensures Run(os).error == os[k].message
  {
    var pre, upto := os[..k], os[..k + 1];
    assert forall j :: 0 <= j < |pre| ==> pre[j] == os[j];
    RunContents(pre);
    var o := os[k];
    assert Sound(o);
    RunPrefix(os, k);
    assert Run(upto) == Advance(Run(pre), o);
    assert Run(upto).error == o.message != "";
    FailFast(upto, os[k + 1..]);
    TakeDrop(os, k + 1);
  }

  lemma TakeDrop<T>(s: seq<T>, n: nat)
    requires n <= |s|
    ensures s[..n] + s[n..] == s
  {
  }

  /**
   * A program whose first failing item is an instruction with a mnemonic
   * outside the table halts with `Invalid opcode: M at line N`, `N` being
   * that item's position among the items.
   */
  lemma HaltsAtUnknownMnemonic(program: string, k: nat)
    requires var items := ValidItems(program);
      && k < |items| && !StartsWith(items[k], "mem") && Mnemonic(items[k]) !in Opcodes
      && forall j :: 0 <= j < k ==> !ProcessItem(items[j], j + 1).Failed?
    ensures AssembleSpec(program).error ==
      "Invalid opcode: " + Mnemonic(ValidItems(program)[k]) + " at line " + ToRadix(k + 1, 10)
  {
    var items := ValidItems(program);
    UnknownMnemonic(items[k]);
    FirstFailure(items, k);
  }

  // The memory image.

  /** The image before anything is written: sixteen default cells. */
  const EmptyImage: seq<Cell> := [
    DefaultCell, DefaultCell, DefaultCell, DefaultCell, DefaultCell, DefaultCell, DefaultCell, DefaultCell,
    DefaultCell, DefaultCell, DefaultCell, DefaultCell, DefaultCell, DefaultCell, DefaultCell, DefaultCell
  ]

  /** The image starts as sixteen cells that each hold the byte zero and come from no line. */
  lemma EmptyImageIsZero()
    ensures |EmptyImage| == 16
    ensures forall k :: 0 <= k < |EmptyImage| ==>
      EmptyImage[k].instruction == [] && IsByteCell(EmptyImage[k]) && ValueOf(EmptyImage[k].binary, 2) == 0
  {
    DefaultCellIsZero();
  }

  /** `ram[i] = c` on a JavaScript array: an index one past the end grows it by one. */
  function Store(ram: seq<Cell>, i: nat, c: Cell): (r: seq<Cell>)
    requires i <= |ram|
    ensures |r| == if i < |ram| then |ram| else |ram| + 1
    ensures r[i] == c
    ensures forall k :: 0 <= k < |ram| && k != i ==> r[k] == ram[k]
  {
    if i < |ram| then ram[i := c] else ram + [c]
  }

  function Max(a: nat, b: nat): nat { if a < b then b else a }

  /**
   * The image once the instructions are placed in order from cell 0: it has
   * sixteen cells, or one per instruction if there are more, the first
   * cells are the instructions and the rest default cells.
   */
  function PlaceInstructions(cells: seq<Cell>): (ram: seq<Cell>)
    ensures |ram| == Max(16, |cells|)
    ensures forall k :: 0 <= k < |cells| ==> ram[k] == cells[k]
    ensures forall k :: |cells| <= k < |ram| ==> ram[k] == DefaultCell
  {
    if cells == [] then EmptyImage
    else Store(PlaceInstructions(cells[..|cells| - 1]), |cells| - 1, cells[|cells| - 1])
  }

  /** The cell the last directive for address `i` writes, if there is one. */
  function LastWrite(memory: seq<MemEntry>, i: nat): Option<Cell> {
    if memory == [] then None
    else if memory[|memory| - 1].address == i then Some(memory[|memory| - 1].cell)
    else LastWrite(memory[..|memory| - 1], i)
  }

  /**
   * The last write is the write of the last directive for address `i`:
   * there is none exactly when no directive names `i`, and otherwise it is a
   * directive for `i` after which no other directive names `i`.
   */
  lemma {:induction false} LastWriteIsLast(memory: seq<MemEntry>, i: nat)
    ensures LastWrite(memory, i).None? <==> forall k :: 0 <= k < |memory| ==> memory[k].address != i
    ensures LastWrite(memory, i).Some? ==>
      exists k :: 0 <= k < |memory| && memory[k] == MemEntry(LastWrite(memory, i).value, i)
        && forall j :: k < j < |memory| ==> memory[j].address != i
  {
    if memory != [] {
      var n := |memory| - 1;
      var front := memory[..n];
      if memory[n].address == i {
        assert memory[n] == MemEntry(LastWrite(memory, i).value, i);
      } else {
        LastWriteIsLast(front, i);
        assert forall k :: 0 <= k < n ==> front[k] == memory[k];
      }
    }
  }

  /** What cell `i` holds after the directives: the last write to it, or `otherwise`. */
  function CellAfter(memory: seq<MemEntry>, i: nat, otherwise: Cell): Cell {
    match LastWrite(memory, i)
    case Some(c) => c
    case None => otherwise
  }

  /**
   * The image once the directives are applied in order: its length does not
   * change, and each cell holds what the last directive for it wrote, or
   * what it held before if no directive names it.
   */
  function ApplyMemory(ram: seq<Cell>, memory: seq<MemEntry>): (r: seq<Cell>)
    requires |ram| >= 16
    requires forall k :: 0 <= k < |memory| ==> memory[k].address <= 15
    ensures |r| == |ram|
    ensures forall i :: 0 <= i < |r| ==> r[i] == CellAfter(memory, i, ram[i])
  {
    if memory == [] then ram
    else
      var n := |memory| - 1;
      Store(ApplyMemory(ram, memory[..n]), memory[n].address, memory[n].cell)
  }

  /** What `assemble` returns: the image and the error message, empty when there is none. */
  datatype Assembly = Assembly(ram: seq<Cell>, error: string)

  /** `assemble`, stated on values. */
  function AssembleSpec(program: string): Assembly {
    var items := ValidItems(program);
    var p := Collect(items);
    RunReport(Outcomes(items));
    Assembly(ApplyMemory(PlaceInstructions(p.instructions), p.memory), p.error)
  }

  /**
   * The image has sixteen cells, or one per instruction if there are more;
   * each cell holds the last directive written to it, else the instruction
   * placed there, else the default cell. Every instruction cell is a byte.
   */
  lemma ImageShape(program: string)
    ensures var p, a := Collect(ValidItems(program)), AssembleSpec(program);
      && |a.ram| == Max(16, |p.instructions|)
      && (forall k :: 0 <= k < |p.instructions| ==> IsByteCell(p.instructions[k]))
      && forall i :: 0 <= i < |a.ram| ==>
           a.ram[i] == CellAfter(p.memory, i, if i < |p.instructions| then p.instructions[i] else DefaultCell)
  {
    RunReport(Outcomes(ValidItems(program)));
  }

  /**
   * A program whose items all go through assembles without error; its
   * instructions are the encodings of its non-directive items, in order, and
   * its directives those of its directive items.
   */
  lemma CleanProgram(program: string)
    requires var items := ValidItems(program);
      forall k :: 0 <= k < |items| ==> !ProcessItem(items[k], k + 1).Failed?
    ensures var os, p := Outcomes(ValidItems(program)), Collect(ValidItems(program));
      && AssembleSpec(program).error == ""
      && p.instructions == PlacedCells(os) && p.memory == StoredEntries(os)
  {
    var os := Outcomes(ValidItems(program));
    OutcomesAt(ValidItems(program));
    RunContents(os);
  }

  /** The loop over the items: each one is processed in turn until one fails. */
  method CollectItems(items: seq<string>) returns (instructions: seq<Cell>, memory: seq<MemEntry>, error: string)
    ensures Pass(instructions, memory, error) == Collect(items)
  {
    instructions, memory, error := [], [], "";
    ghost var os := Outcomes(items);
    var index := 0;
    while index < |items|
      invariant 0 <= index <= |items|
      invariant Run(os[..index]) == Pass(instructions, memory, error)
      invariant error == ""
    {
      var o := ProcessItem(items[index], index + 1);
      NextOutcome(items, index);
      match o {
        case Placed(c) =>
          instructions := instructions + [c];
        case Stored(e) =>
          memory := memory + [e];
        case Failed(msg) =>
          error := msg;
          index := index + 1;
          break;
      }
      index := index + 1;
    }
    RunRest(os, index);
  }

  /** The pass over the first `n + 1` items is one more step after the first `n`. */
  lemma NextOutcome(items: seq<string>, n: nat)
    requires n < |items|
    ensures Run(Outcomes(items)[..n + 1]) == Advance(Run(Outcomes(items)[..n]), ProcessItem(items[n], n + 1))
  {
    RunPrefix(Outcomes(items), n);
  }

  /** The pass over a prefix that ends in an error, or over all outcomes, is the whole pass. */
  lemma RunRest(os: seq<Outcome>, n: nat)
    requires n <= |os| && (n == |os| || Run(os[..n]).error != "")
    ensures Run(os) == Run(os[..n])
  {
    if n < |os| {
      FailFast(os[..n], os[n..]);
      assert os[..n] + os[n..] == os;
    } else {
      assert os[..n] == os;
    }
  }

  /** The loop that copies the instructions into the image from cell 0. */
  method PlaceAll(instructions: seq<Cell>) returns (ram: seq<Cell>)
    ensures ram == PlaceInstructions(instructions)
  {
    ram := EmptyImage;
    var k := 0;
    while k < |instructions|
      invariant 0 <= k <= |instructions|
      invariant ram == PlaceInstructions(instructions[..k])
    {
      assert instructions[..k + 1][..k] == instructions[..k];
      ram := Store(ram, k, instructions[k]);
      k := k + 1;
    }
    assert instructions[..k] == instructions;
  }

  /** The loop that writes each directive's cell at its address, in order. */
  method ApplyAll(ram0: seq<Cell>, memory: seq<MemEntry>) returns (ram: seq<Cell>)
    requires |ram0| >= 16
    requires forall k :: 0 <= k < |memory| ==> memory[k].address <= 15
    ensures ram == ApplyMemory(ram0, memory)
  {
    ram := ram0;
    var j := 0;
    while j < |memory|
      invariant 0 <= j <= |memory|
      invariant ram == ApplyMemory(ram0, memory[..j])
    {
      assert memory[..j + 1][..j] == memory[..j];
      ram := Store(ram, memory[j].address, memory[j].cell);
      j := j + 1;
    }
    assert memory[..j] == memory;
  }

  /**
   * `assemble`: the pass over the items, stopping at the first error, then
   * the instructions placed from cell 0, then the directives applied.
   */
  method Assemble(program: string) returns (ram: seq<Cell>, error: string)
    ensures Assembly(ram, error) == AssembleSpec(program)
  {
    var items := ValidItems(program);
    var instructions, memory;
    instructions, memory, error := CollectItems(items);
    RunReport(Outcomes(items));
    ram := PlaceAll(instructions);
    ram := ApplyAll(ram, memory);
  }
}
