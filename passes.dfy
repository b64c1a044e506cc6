/** The two passes of `PDP11_Parser` as functions on its state: pass 1
    (`precompile` after a line is parsed) sizes every line and collects
    labels and variables; pass 2 (`code_programm` with `listing_comm` and
    `object_comm`) emits the listing lines and the object bytes. The class
    in `assembler.dfy` runs the same steps with loops and is proved equal to
    these functions. */
module Passes {
  import opened Errors
  import opened Conversions
  import opened Operands
  import opened Encoder

  // ---------------------------------------------------------------------
  // Parsed lines and the assembler state
  // ---------------------------------------------------------------------

  /** What a parsed line asks for: a directive (the `pseudo` key), an
      instruction (the `name` key, looked at only when there is no
      directive), or nothing. */
  datatype Statement = Directive(directive: seq<char>) | Instruction(mnemonic: seq<char>) | NoStatement

  /** One record of the line parser: optional label, optional variable
      being assigned, the statement, its argument tokens and the line's
      text. */
  datatype Line = Line(
    labelName: Option<seq<char>>,
    variable: Option<seq<char>>,
    statement: Statement,
    args: seq<seq<char>>,
    text: seq<char>)

  /** The fields of `PDP11_Parser` that the passes change. */
  datatype Assembly = Assembly(
    pc: int,
    currBlock: int,
    objectLines: map<int, seq<seq<char>>>,
    labels: map<seq<char>, int>,
    variables: map<seq<char>, seq<char>>,
    lines: seq<seq<char>>)

  /** The state `__init__` builds: counter and current block 0, one empty
      block at address 0, no labels, variables or listing lines. */
  const Initial: Assembly := Assembly(0, 0, map[0 := []], map[], map[], [])

  function TablesOf(a: Assembly): Symbols { Symbols(a.labels, a.variables) }

  // ---------------------------------------------------------------------
  // What a line emits
  // ---------------------------------------------------------------------

  /** The words of an instruction: the opcode word followed by its
      extension words, placeholders made relative to 0 in pass 1 and the
      real ones in pass 2, counted from the word after the opcode. */
  function InstructionWords(name: seq<char>, args: seq<seq<char>>, syms: Symbols, pc: int, precompile: bool): (r: Result<seq<seq<char>>>)
    ensures r.Ok? ==> CodeCommand(name, args, syms, pc, precompile).Ok?
    ensures r.Ok? ==> (r.value != [] && r.value[0] == CodeCommand(name, args, syms, pc, precompile).value.word &&
      forall i :: 0 <= i < |r.value| ==> |r.value[i]| == 16 && IsBits(r.value[i]))
    ensures r.Ok? ==> |r.value| == 1 + WordCount(CodeCommand(name, args, syms, pc, precompile).value.ops)
  {
    var c := CodeCommand(name, args, syms, pc, precompile);
    if c.Err? then Err(c.error)
    else
      var ext := if precompile then PlaceholderWords(c.value.ops) else ExtWords(c.value.ops, pc + 2);
      if ext.Err? then Err(ext.error)
      else
        ExtensionCount(c.value.ops, pc, precompile);
        WordsAfter(c.value.word, ext.value);
        Ok([c.value.word] + ext.value)
  }

  lemma WordsAfter(w: seq<char>, ext: seq<seq<char>>)
    requires |w| == 16 && IsBits(w) && forall i :: 0 <= i < |ext| ==> |ext[i]| == 16 && IsBits(ext[i])
    ensures forall i :: 0 <= i < |[w] + ext| ==> |([w] + ext)[i]| == 16 && IsBits(([w] + ext)[i])
  {
    forall i | 0 <= i < |[w] + ext| ensures |([w] + ext)[i]| == 16 && IsBits(([w] + ext)[i]) {
      if i > 0 { assert ([w] + ext)[i] == ext[i - 1]; }
    }
  }

  lemma ExtensionCount(ops: seq<Operand>, pc: int, precompile: bool)
    requires (if precompile then PlaceholderWords(ops) else ExtWords(ops, pc + 2)).Ok?
    ensures |(if precompile then PlaceholderWords(ops) else ExtWords(ops, pc + 2)).value| == WordCount(ops)
  {
    if precompile {
      PlaceholderWordsCount(ops);
    } else {
      ExtWordsCount(ops, pc + 2);
    }
  }

  /** A labelled directive or instruction written without argument tokens:
      the parser only supplies an empty argument list to a line without a
      label, so such a record has none, and reading it fails. */
  predicate ArgsAbsent(line: Line)
  {
    line.labelName.Some? && !line.statement.NoStatement? && line.args == []
  }

  /** The items a line emits in either pass. */
  function Emit(line: Line, syms: Symbols, pc: int, precompile: bool): (r: Result<Emitted>)
    ensures r.Ok? ==> AllItems(r.value.items)
    ensures r.Ok? && !line.statement.Directive? ==> r.value.origin == None
    ensures ArgsAbsent(line) ==> r == Err(NoArgumentList)
    ensures line.statement.Directive? && !ArgsAbsent(line) ==> r == PseudoWords(line.statement.directive, line.args, line.text)
    ensures line.statement.NoStatement? ==> r == Ok(Emitted([], None))
    ensures line.statement.Instruction? ==> (r.Ok? <==> !ArgsAbsent(line) && InstructionWords(line.statement.mnemonic, line.args, syms, pc, precompile).Ok?)
    ensures line.statement.Instruction? && r.Ok? ==> r.value.items == InstructionWords(line.statement.mnemonic, line.args, syms, pc, precompile).value
  {
    if ArgsAbsent(line) then Err(NoArgumentList)
    else
      match line.statement
      case Directive(d) => PseudoWords(d, line.args, line.text)
      case NoStatement => Ok(Emitted([], None))
      case Instruction(n) =>
        var ws :- InstructionWords(n, line.args, syms, pc, precompile);
        Ok(Emitted(ws, None))
  }

  /** The number of bytes the items occupy: `len(item) // 8` summed. */
  function Size(items: seq<seq<char>>): nat
  {
    if items == [] then 0 else Size(items[..|items| - 1]) + |items[|items| - 1]| / 8
  }

  lemma {:induction false} SizeAppend(a: seq<seq<char>>, b: seq<seq<char>>)
    ensures Size(a + b) == Size(a) + Size(b)
    decreases |b|
  {
    if b == [] {
      assert a + b == a;
    } else {
      assert (a + b)[..|a + b| - 1] == a + b[..|b| - 1];
      SizeAppend(a, b[..|b| - 1]);
    }
  }

  /** k words take 2k bytes. */
  lemma {:induction false} WordsSize(ws: seq<seq<char>>)
    requires forall i :: 0 <= i < |ws| ==> |ws[i]| == 16
    ensures Size(ws) == 2 * |ws|
    decreases |ws|
  {
    if ws != [] {
      WordsSize(ws[..|ws| - 1]);
    }
  }

  /** An instruction line takes two bytes for its opcode word and two for
      each operand that needs an extension word. */
  lemma InstructionSize(line: Line, syms: Symbols, pc: int, precompile: bool)
    requires line.statement.Instruction? && Emit(line, syms, pc, precompile).Ok?
    ensures CodeCommand(line.statement.mnemonic, line.args, syms, pc, precompile).Ok?
    ensures Size(Emit(line, syms, pc, precompile).value.items) ==
      2 + 2 * WordCount(CodeCommand(line.statement.mnemonic, line.args, syms, pc, precompile).value.ops)
  {
    WordsSize(Emit(line, syms, pc, precompile).value.items);
  }

  /** A line takes the same room in pass 1 as in pass 2, whatever tables
      and counters each pass uses; a `.=` moves the counter to the same
      place in both. */
  lemma LineSizeStable(line: Line, first: Symbols, pc1: int, second: Symbols, pc2: int)
    requires Emit(line, first, pc1, true).Ok? && Emit(line, second, pc2, false).Ok?
    ensures Size(Emit(line, first, pc1, true).value.items) == Size(Emit(line, second, pc2, false).value.items)
    ensures Emit(line, first, pc1, true).value.origin == Emit(line, second, pc2, false).value.origin
  {
    if line.statement.Instruction? {
      InstructionSize(line, first, pc1, true);
      InstructionSize(line, second, pc2, false);
      SameWordCount(line.statement.mnemonic, line.args, first, pc1, second, pc2);
    }
  }

  // ---------------------------------------------------------------------
  // Pass 1: precompile
  // ---------------------------------------------------------------------

  /** Where a line's items go: the `.=` address, or the counter. */
  function LineStart(e: Emitted, pc: int): int
  {
    if e.origin.Some? then e.origin.value else pc
  }

  /** The `.=` branch of `code_pseudo_command`: counter and current block
      move to the address, which gets a fresh empty block. */
  function ApplyOrigin(e: Emitted, a: Assembly): (r: Assembly)
    ensures r.pc == LineStart(e, a.pc) && r.labels == a.labels && r.variables == a.variables && r.lines == a.lines
    ensures e.origin.None? ==> r == a
    ensures e.origin.Some? ==> r.currBlock == r.pc && r.objectLines == a.objectLines[r.pc := []]
  {
    match e.origin
    case None => a
    case Some(address) => a.(pc := address, currBlock := address, objectLines := a.objectLines[address := []])
  }

  /** One line of pass 1: its items are sized with placeholder fields;
      after a `.=` takes effect the label is bound to the counter, the
      variable to its first argument, and the counter moves past the
      items. */
  function Pass1Step(line: Line, a: Assembly): Result<Assembly>
  {
    var e :- Emit(line, TablesOf(a), a.pc, true);
    Record(line, e, a)
  }

  /** What a pass-1 line changes: the counter moves past its items from
      where they start, the label is bound to that start, the variable to
      the first argument; it fails when the line's items fail or a
      variable has no value. */
  lemma Pass1StepEffect(line: Line, a: Assembly)
    ensures var r := Pass1Step(line, a);
      (r.Ok? ==> Emit(line, TablesOf(a), a.pc, true).Ok?) &&
      (r.Ok? ==> (var e := Emit(line, TablesOf(a), a.pc, true).value;
        r.value.pc == LineStart(e, a.pc) + Size(e.items) && r.value.lines == a.lines &&
        r.value.currBlock == ApplyOrigin(e, a).currBlock && r.value.objectLines == ApplyOrigin(e, a).objectLines &&
        r.value.labels == (if line.labelName.Some? then a.labels[line.labelName.value := LineStart(e, a.pc)] else a.labels) &&
        (line.variable.Some? ==> line.args != []) &&
        r.value.variables == (if line.variable.Some? then a.variables[line.variable.value := line.args[0]] else a.variables))) &&
      (r.Err? <==> Emit(line, TablesOf(a), a.pc, true).Err? || (line.variable.Some? && line.args == []))
  {
  }

  /** What pass 1 records for a line once its items are known. */
  function Record(line: Line, e: Emitted, a: Assembly): (r: Result<Assembly>)
  {
    var b := ApplyOrigin(e, a);
    var c := if line.labelName.Some? then b.(labels := b.labels[line.labelName.value := b.pc]) else b;
    var d :- if line.variable.None? then Ok(c)
      else if line.args == [] then Err(MissingArgument)
      else Ok(c.(variables := c.variables[line.variable.value := line.args[0]]));
    Ok(d.(pc := d.pc + Size(e.items)))
  }

  /** Pass 1 over the remaining lines. */
  function Pass1(lines: seq<Line>, a: Assembly): Result<Assembly>
    decreases |lines|
  {
    if lines == [] then Ok(a)
    else
      var b :- Pass1Step(lines[0], a);
      Pass1(lines[1..], b)
  }

  /** The end of `precompile` as written: only the counter goes back to 0. */
  function EndPass1AsWritten(a: Assembly): (r: Assembly)
    ensures r.pc == 0 && r.currBlock == a.currBlock && r.objectLines == a.objectLines
  {
    a.(pc := 0)
  }

  /** The corrected end of pass 1: pass 2 starts where pass 1
      did, at address 0 in block 0. */
  function EndPass1(a: Assembly): (r: Assembly)
    ensures r.pc == 0 && r.currBlock == 0 && r.labels == a.labels && r.variables == a.variables
  {
    a.(pc := 0, currBlock := 0)
  }

  // ---------------------------------------------------------------------
  // Pass 2: code_programm, listing_comm, object_comm
  // ---------------------------------------------------------------------

  /** The listing line of one item: its octal text after one tab, or two
      for a byte at an even position of the line (the "staircase"). */
  function ItemLine(item: seq<char>, index: nat): seq<char>
    requires IsItem(item)
  {
    (if |item| == 8 && index % 2 == 0 then "\t\t" else "\t") + BinToOct(item)
  }

  /** An item's listing line shows its value: six octal digits for a word,
      three for a byte. */
  lemma ItemLineText(item: seq<char>, index: nat)
    requires IsItem(item)
    ensures ItemLine(item, index) == (if |item| == 8 && index % 2 == 0 then "\t\t" else "\t") +
      Oct(BitsValue(item), if |item| == 16 then 6 else 3)
  {
    BinToOctIsOctal(item);
  }

  /** The listing lines of a line's items, numbered from 0. */
  function ItemLines(items: seq<seq<char>>): (r: seq<seq<char>>)
    requires AllItems(items)
    ensures |r| == |items|
  {
    seq(|items|, i requires 0 <= i < |items| => ItemLine(items[i], i))
  }

  lemma PrefixItems(items: seq<seq<char>>, n: nat)
    requires AllItems(items) && n <= |items|
    ensures AllItems(items[..n])
  {
    assert forall i :: 0 <= i < n ==> items[..n][i] == items[i];
  }

  /** The listing header of a line with text: the address the line starts
      at before any `.=` of its own, in six octal digits. */
  function ListingHeader(text: seq<char>, current: int): seq<seq<char>>
  {
    if text == [] then [] else [Oct(current, 6) + ":\t\t" + text]
  }

  /** `listing_comm`: the header and one line per item; the counter moves
      past the items. */
  function ListingComm(text: seq<char>, items: seq<seq<char>>, current: int, a: Assembly): (r: Assembly)
    requires AllItems(items)
    ensures |r.lines| == |a.lines| + (if text == [] then 0 else 1) + |items|
    ensures r.lines[..|a.lines|] == a.lines
    ensures text != [] ==> r.lines[|a.lines|] == Oct(current, 6) + ":\t\t" + text
    ensures r.lines[|r.lines| - |items|..] == ItemLines(items)
    ensures r.pc == a.pc + Size(items)
    ensures r.(lines := a.lines, pc := a.pc) == a
  {
    var h := ListingHeader(text, current);
    var body := ItemLines(items);
    AppendedLines(a.lines, h, body);
    a.(lines := a.lines + h + body, pc := a.pc + Size(items))
  }

  lemma AppendedLines(x: seq<seq<char>>, h: seq<seq<char>>, t: seq<seq<char>>)
    ensures var s := x + h + t;
      s[..|x|] == x && |s| == |x| + |h| + |t| && (h != [] ==> s[|x|] == h[0]) && s[|s| - |t|..] == t
  {
  }

  /** The object bytes of the items, in order: two per word (low byte
      first), one per byte. */
  function HexBytes(items: seq<seq<char>>): (r: seq<seq<char>>)
    requires AllItems(items)
    ensures |r| == Size(items)
  {
    if items == [] then []
    else
      PrefixItems(items, |items| - 1);
      HexBytes(items[..|items| - 1]) + BinToHex(items[|items| - 1])
  }

  /** `object_comm`: the items' bytes are appended to the current block and
      no other block changes. */
  function ObjectComm(items: seq<seq<char>>, a: Assembly): (r: Result<Assembly>)
    requires AllItems(items)
    ensures r.Ok? <==> a.currBlock in a.objectLines
    ensures r.Err? ==> r.error == NoSuchBlock(a.currBlock)
    ensures r.Ok? ==> r.value.objectLines.Keys == a.objectLines.Keys
    ensures r.Ok? ==> r.value.objectLines[a.currBlock] == a.objectLines[a.currBlock] + HexBytes(items)
    ensures r.Ok? ==> forall b :: b in a.objectLines && b != a.currBlock ==> r.value.objectLines[b] == a.objectLines[b]
    ensures r.Ok? ==> r.value.(objectLines := a.objectLines) == a
  {
    if a.currBlock !in a.objectLines then Err(NoSuchBlock(a.currBlock))
    else Ok(a.(objectLines := a.objectLines[a.currBlock := a.objectLines[a.currBlock] + HexBytes(items)]))
  }

  /** One line of pass 2. */
  function Pass2Step(line: Line, a: Assembly): Result<Assembly>
  {
    var current := a.pc;
    var e :- Emit(line, TablesOf(a), a.pc, false);
    Output(line, e, current, a)
  }

  /** What pass 2 does with a line once its items are known. */
  function Output(line: Line, e: Emitted, current: int, a: Assembly): Result<Assembly>
    requires AllItems(e.items)
  {
    var b := ApplyOrigin(e, a);
    var c := ListingComm(line.text, e.items, current, b);
    ObjectComm(e.items, c)
  }

  /** What a pass-2 line changes: the listing gets the line's header and
      item lines, the counter moves past the items from where they start,
      and the items' bytes go to the end of the block they start in; it
      fails when the items fail or that block has no byte list. */
  lemma Pass2StepEffect(line: Line, a: Assembly)
    ensures var r := Pass2Step(line, a);
      (r.Ok? ==> Emit(line, TablesOf(a), a.pc, false).Ok?) &&
      (r.Ok? ==> (var e := Emit(line, TablesOf(a), a.pc, false).value;
        r.value.pc == LineStart(e, a.pc) + Size(e.items) && r.value.labels == a.labels && r.value.variables == a.variables &&
        r.value.lines == a.lines + ListingHeader(line.text, a.pc) + ItemLines(e.items) &&
        r.value.currBlock == LineStart(e, a.currBlock) && r.value.currBlock in ApplyOrigin(e, a).objectLines &&
        r.value.objectLines == (var blocks := ApplyOrigin(e, a).objectLines;
          blocks[r.value.currBlock := blocks[r.value.currBlock] + HexBytes(e.items)]))) &&
      (r.Err? <==> (Emit(line, TablesOf(a), a.pc, false).Err? ||
        (Emit(line, TablesOf(a), a.pc, false).value.origin.None? && a.currBlock !in a.objectLines)))
  {
  }

  function Pass2(lines: seq<Line>, a: Assembly): Result<Assembly>
    decreases |lines|
  {
    if lines == [] then Ok(a)
    else
      var b :- Pass2Step(lines[0], a);
      Pass2(lines[1..], b)
  }

  /** Pass 1 only makes empty blocks and keeps block 0. */
  predicate BlocksEmpty(a: Assembly)
  {
    0 in a.objectLines && forall b :: b in a.objectLines ==> a.objectLines[b] == []
  }

  lemma {:induction false} Pass1KeepsBlocksEmpty(lines: seq<Line>, a: Assembly)
    requires BlocksEmpty(a) && Pass1(lines, a).Ok?
    ensures BlocksEmpty(Pass1(lines, a).value)
    decreases |lines|
  {
    if lines != [] {
      Pass1StepEffect(lines[0], a);
      var b := Pass1Step(lines[0], a).value;
      assert BlocksEmpty(b);
      Pass1KeepsBlocksEmpty(lines[1..], b);
    }
  }

  /** The bytes of the current block run up to the counter, so the next
      byte `object_comm` appends sits at the address the listing gives it. */
  predicate Placed(a: Assembly)
  {
    a.currBlock in a.objectLines && a.pc == a.currBlock + |a.objectLines[a.currBlock]|
  }

  lemma Pass2StepPlaced(line: Line, a: Assembly)
    requires Placed(a) && Pass2Step(line, a).Ok?
    ensures Placed(Pass2Step(line, a).value)
  {
    Pass2StepEffect(line, a);
  }

  lemma {:induction false} Pass2Placed(lines: seq<Line>, a: Assembly)
    requires Placed(a) && Pass2(lines, a).Ok?
    ensures Placed(Pass2(lines, a).value)
    decreases |lines|
  {
    if lines != [] {
      Pass2StepPlaced(lines[0], a);
      Pass2Placed(lines[1..], Pass2Step(lines[0], a).value);
    }
  }

  /** Corrected, pass 2 starts placed: at address 0 in the empty block 0. */
  lemma EndPass1Placed(a: Assembly)
    requires BlocksEmpty(a)
    ensures Placed(EndPass1(a))
  {
  }

  /** As written, pass 2 starts placed only when pass 1 ended in block 0,
      that is, when the last `.=` (if any) was to address 0. */
  lemma EndPass1AsWrittenPlaced(a: Assembly)
    requires BlocksEmpty(a) && a.currBlock in a.objectLines
    ensures Placed(EndPass1AsWritten(a)) <==> a.currBlock == 0
  {
  }

  /** The whole assembler: pass 1 from the initial state, then pass 2. */
  function Assemble(lines: seq<Line>): Result<Assembly>
  {
    var a :- Pass1(lines, Initial);
    Pass2(lines, EndPass1(a))
  }

  function AssembleAsWritten(lines: seq<Line>): Result<Assembly>
  {
    var a :- Pass1(lines, Initial);
    Pass2(lines, EndPass1AsWritten(a))
  }

  /** After a whole run every block's bytes sit at the addresses the
      listing gives them: the last block's bytes run up to the counter. */
  lemma AssemblePlaced(lines: seq<Line>)
    ensures Assemble(lines).Ok? ==> Placed(Assemble(lines).value)
  {
    if Pass1(lines, Initial).Ok? {
      Pass1KeepsBlocksEmpty(lines, Initial);
      var a := Pass1(lines, Initial).value;
      EndPass1Placed(a);
      if Pass2(lines, EndPass1(a)).Ok? {
        Pass2Placed(lines, EndPass1(a));
      }
    }
  }

  /** A labelled statement without arguments stops pass 1: the whole
      assembly fails, and when the lines before it go through, it fails
      for want of the argument list. */
  lemma {:induction false} Pass1StopsAtBareLabel(lines: seq<Line>, a: Assembly, k: nat)
    requires k < |lines| && ArgsAbsent(lines[k])
    ensures Pass1(lines, a).Err?
    ensures Pass1(lines[..k], a).Ok? ==> Pass1(lines, a).error == NoArgumentList
    decreases k
  {
    if k == 0 {
      assert Emit(lines[0], TablesOf(a), a.pc, true) == Err(NoArgumentList);
    } else {
      assert lines[..k][0] == lines[0];
      var s := Pass1Step(lines[0], a);
      if s.Ok? {
        assert lines[..k][1..] == lines[1..][..k - 1];
        Pass1StopsAtBareLabel(lines[1..], s.value, k - 1);
      }
    }
  }

  lemma BareLabelFails(lines: seq<Line>, k: nat)
    requires k < |lines| && ArgsAbsent(lines[k])
    ensures Assemble(lines).Err? && AssembleAsWritten(lines).Err?
  {
    Pass1StopsAtBareLabel(lines, Initial, k);
  }

  // ---------------------------------------------------------------------
  // What the passes guarantee
  // ---------------------------------------------------------------------

  /** The address where each line's items start, in pass 1 and in pass 2. */
  function Starts1(lines: seq<Line>, a: Assembly): (r: seq<int>)
    requires Pass1(lines, a).Ok?
    ensures |r| == |lines|
    decreases |lines|
  {
    if lines == [] then []
    else
      var e := Emit(lines[0], TablesOf(a), a.pc, true).value;
      [LineStart(e, a.pc)] + Starts1(lines[1..], Pass1Step(lines[0], a).value)
  }

  function Starts2(lines: seq<Line>, a: Assembly): (r: seq<int>)
    requires Pass2(lines, a).Ok?
    ensures |r| == |lines|
    decreases |lines|
  {
    if lines == [] then []
    else
      var e := Emit(lines[0], TablesOf(a), a.pc, false).value;
      [LineStart(e, a.pc)] + Starts2(lines[1..], Pass2Step(lines[0], a).value)
  }

  /** The invariant pass 1 exists for: started at the same counter, both
      passes put every line at the same address and end at the same
      counter. */
  lemma {:induction false} PassesAgree(lines: seq<Line>, a1: Assembly, a2: Assembly)
    requires a1.pc == a2.pc && Pass1(lines, a1).Ok? && Pass2(lines, a2).Ok?
    ensures Starts1(lines, a1) == Starts2(lines, a2)
    ensures Pass1(lines, a1).value.pc == Pass2(lines, a2).value.pc
    decreases |lines|
  {
    if lines != [] {
      Pass1StepEffect(lines[0], a1);
      Pass2StepEffect(lines[0], a2);
      var b1 := Pass1Step(lines[0], a1).value;
      var b2 := Pass2Step(lines[0], a2).value;
      LineSizeStable(lines[0], TablesOf(a1), a1.pc, TablesOf(a2), a2.pc);
      assert TablesOf(b2) == TablesOf(a2);
      PassesAgree(lines[1..], b1, b2);
    }
  }

  /** The labels after a pass-1 line: its own label, if any, is bound to
      where its items start. */
  lemma Pass1StepLabels(line: Line, a: Assembly)
    requires Pass1Step(line, a).Ok?
    ensures Emit(line, TablesOf(a), a.pc, true).Ok?
    ensures Pass1Step(line, a).value.labels == (if line.labelName.Some?
      then a.labels[line.labelName.value := LineStart(Emit(line, TablesOf(a), a.pc, true).value, a.pc)]
      else a.labels)
  {
    Pass1StepEffect(line, a);
  }

  /** Pass 1 leaves alone a label that no remaining line defines. */
  lemma {:induction false} Pass1KeepsLabel(lines: seq<Line>, a: Assembly, l: seq<char>)
    requires Pass1(lines, a).Ok? && l in a.labels
    requires forall j :: 0 <= j < |lines| ==> lines[j].labelName != Some(l)
    ensures l in Pass1(lines, a).value.labels && Pass1(lines, a).value.labels[l] == a.labels[l]
    decreases |lines|
  {
    if lines != [] {
      Pass1StepLabels(lines[0], a);
      Pass1KeepsLabel(lines[1..], Pass1Step(lines[0], a).value, l);
    }
  }

  /** Pass 1 binds a label to the address of the last line that defines
      it. */
  lemma {:induction false} LabelIsStart(lines: seq<Line>, a: Assembly, i: int)
    requires Pass1(lines, a).Ok? && 0 <= i < |lines| && lines[i].labelName.Some?
    requires forall j :: i < j < |lines| ==> lines[j].labelName != lines[i].labelName
    ensures lines[i].labelName.value in Pass1(lines, a).value.labels
    ensures Pass1(lines, a).value.labels[lines[i].labelName.value] == Starts1(lines, a)[i]
    decreases |lines|
  {
    Pass1StepLabels(lines[0], a);
    var b := Pass1Step(lines[0], a).value;
    assert Starts1(lines, a) == [LineStart(Emit(lines[0], TablesOf(a), a.pc, true).value, a.pc)] + Starts1(lines[1..], b);
    if i == 0 {
      assert forall j :: 0 <= j < |lines[1..]| ==> lines[1..][j].labelName != lines[0].labelName;
      Pass1KeepsLabel(lines[1..], b, lines[0].labelName.value);
    } else {
      LabelIsStart(lines[1..], b, i - 1);
    }
  }

  /** With pass 2 started at address 0, a label holds the address where
      pass 2 puts its line, which is what the branch, `sob` and `jsr`
      displacements and the label's constant are computed from. Pass 1
      starts from `Initial`, or from any state whose counter is 0. */
  lemma LabelsMarkPass2Addresses(lines: seq<Line>, start: Assembly, i: int)
    requires start.pc == 0 && Pass1(lines, start).Ok?
    requires Pass2(lines, EndPass1(Pass1(lines, start).value)).Ok?
    requires 0 <= i < |lines| && lines[i].labelName.Some?
    requires forall j :: i < j < |lines| ==> lines[j].labelName != lines[i].labelName
    ensures lines[i].labelName.value in Pass1(lines, start).value.labels
    ensures Pass1(lines, start).value.labels[lines[i].labelName.value] == Starts2(lines, EndPass1(Pass1(lines, start).value))[i]
  {
    LabelIsStart(lines, start, i);
    PassesAgree(lines, start, EndPass1(Pass1(lines, start).value));
  }

  // ---------------------------------------------------------------------
  // The block pass 2 starts in
  // ---------------------------------------------------------------------

  /** `halt`, then `. = 1000`, then `halt`. */
  const HaltLine: Line := Line(None, None, Instruction("halt"), [], "halt")
  const OriginLine: Line := Line(None, None, Directive(".="), ["1000"], ". = 1000")

  lemma HaltEmits(syms: Symbols, pc: int, precompile: bool)
    ensures Emit(HaltLine, syms, pc, precompile) == Ok(Emitted(["0000000000000000"], None))
  {
    var c := Commands["halt"];
    assert c == Command("halt", "0000000000000000", false, false, false, false, false, false);
    assert RecognizeArgs([]) == Ok([]);
    assert ResolveAll([], syms, precompile) == Ok([]);
    assert Fields(c, [], [], syms, pc, precompile) == Ok([]);
    assert ShiftOperand(c, [], syms, pc, precompile) == Ok([]);
    var none: seq<Operand> := [];
    assert c.opcode + [] == "0000000000000000" && none + none == none;
    assert CodeCommand("halt", [], syms, pc, precompile) == Ok(Coded("0000000000000000", []));
    assert PlaceholderWords([]) == Ok([]) && ExtWords([], pc + 2) == Ok([]);
    assert ["0000000000000000"] + [] == ["0000000000000000"];
    assert InstructionWords("halt", [], syms, pc, precompile) == Ok(["0000000000000000"]);
  }

  lemma OriginEmits(syms: Symbols, pc: int, precompile: bool)
    ensures Emit(OriginLine, syms, pc, precompile) == Ok(Emitted([], Some(512)))
  {
    assert "1000"[..1] == "1" && "1000"[..2] == "10" && "1000"[..3] == "100";
    assert DigitsValue("1", 8) == 1;
    assert DigitsValue("10", 8) == 8;
    assert DigitsValue("100", 8) == 64;
    assert DigitsValue("1000", 8) == 512;
    assert ParseInt("1000", 8) == Ok(512);
  }

  lemma HaltPass1(a: Assembly)
    ensures Pass1Step(HaltLine, a) == Ok(a.(pc := a.pc + 2))
  {
    HaltEmits(TablesOf(a), a.pc, true);
    assert Size(["0000000000000000"]) == 2;
  }

  lemma OriginPass1(a: Assembly)
    ensures Pass1Step(OriginLine, a) == Ok(a.(pc := 512, currBlock := 512, objectLines := a.objectLines[512 := []]))
  {
    OriginEmits(TablesOf(a), a.pc, true);
  }

  /** As written, pass 2 puts the bytes of the lines before the first `.=`
      into the block pass 1 ended in, and that `.=` empties the block
      again: for `halt` then `. = 1000` the `halt` is in no block, where
      the corrected end of pass 1 puts its two bytes in block 0. */
  lemma FirstBlockLostAsWritten()
    ensures var lines := [HaltLine, OriginLine];
      AssembleAsWritten(lines).Ok? && Assemble(lines).Ok? &&
      0 in AssembleAsWritten(lines).value.objectLines && AssembleAsWritten(lines).value.objectLines[0] == [] &&
      512 in AssembleAsWritten(lines).value.objectLines && AssembleAsWritten(lines).value.objectLines[512] == [] &&
      0 in Assemble(lines).value.objectLines && |Assemble(lines).value.objectLines[0]| == 2
  {
    var c := Initial.(pc := 512, currBlock := 512, objectLines := map[0 := [], 512 := []]);
    PassOneRun(c);
    PassTwoEmits();
    WrittenRun(HaltLine, OriginLine, c);
    CorrectedRun(HaltLine, OriginLine, c);
    assert Size(["0000000000000000"]) == 2;
  }

  lemma PassOneRun(c: Assembly)
    requires c == Initial.(pc := 512, currBlock := 512, objectLines := map[0 := [], 512 := []])
    ensures Pass1([HaltLine, OriginLine], Initial) == Ok(c)
  {
    HaltPass1(Initial);
    var b := Initial.(pc := 2);
    OriginPass1(b);
    Pass1Two(HaltLine, OriginLine, Initial);
    assert b.objectLines[512 := []] == map[0 := [], 512 := []];
  }

  lemma PassTwoEmits()
    ensures forall syms, pc :: Emit(HaltLine, syms, pc, false) == Ok(Emitted(["0000000000000000"], None))
    ensures forall syms, pc :: Emit(OriginLine, syms, pc, false) == Ok(Emitted([], Some(512)))
  {
    forall syms, pc ensures Emit(HaltLine, syms, pc, false) == Ok(Emitted(["0000000000000000"], None)) {
      HaltEmits(syms, pc, false);
    }
    forall syms, pc ensures Emit(OriginLine, syms, pc, false) == Ok(Emitted([], Some(512))) {
      OriginEmits(syms, pc, false);
    }
  }

  /** Pass 1 over two lines. */
  lemma Pass1Two(first: Line, second: Line, a: Assembly)
    requires Pass1Step(first, a).Ok? && Pass1Step(second, Pass1Step(first, a).value).Ok?
    ensures Pass1([first, second], a) == Pass1Step(second, Pass1Step(first, a).value)
  {
    var b := Pass1Step(first, a).value;
    assert [first, second][1..] == [second] && [second][1..] == [];
    assert Pass1([second], b) == Pass1Step(second, b);
  }

  /** A pass-2 line without `.=` appends its bytes to the current block. */
  lemma Pass2StepAppends(line: Line, a: Assembly, items: seq<seq<char>>)
    requires Emit(line, TablesOf(a), a.pc, false) == Ok(Emitted(items, None)) && a.currBlock in a.objectLines
    ensures Pass2Step(line, a).Ok? && AllItems(items)
    ensures var b := Pass2Step(line, a).value;
      b.pc == a.pc + Size(items) && b.currBlock == a.currBlock &&
      b.objectLines == a.objectLines[a.currBlock := a.objectLines[a.currBlock] + HexBytes(items)]
  {
  }

  /** A pass-2 `.=` line starts its block afresh. */
  lemma Pass2StepMoves(line: Line, a: Assembly, address: int)
    requires Emit(line, TablesOf(a), a.pc, false) == Ok(Emitted([], Some(address)))
    ensures Pass2Step(line, a).Ok?
    ensures var b := Pass2Step(line, a).value;
      b.pc == address && b.currBlock == address && b.objectLines == a.objectLines[address := []]
  {
    assert HexBytes([]) == [] && Size([]) == 0;
  }

  /** Pass 2 over two lines. */
  lemma Pass2Two(first: Line, second: Line, a: Assembly)
    requires Pass2Step(first, a).Ok? && Pass2Step(second, Pass2Step(first, a).value).Ok?
    ensures Pass2([first, second], a) == Pass2Step(second, Pass2Step(first, a).value)
  {
    var b := Pass2Step(first, a).value;
    assert [first, second][1..] == [second] && [second][1..] == [];
    assert Pass2([second], b) == Pass2Step(second, b);
  }

  /** A line emitting one word, then a `.=` to 512, as written. */
  lemma WrittenRun(h: Line, o: Line, a: Assembly)
    requires a.currBlock == 512 && 512 in a.objectLines && 0 in a.objectLines && a.objectLines[0] == []
    requires forall syms, pc :: Emit(h, syms, pc, false) == Ok(Emitted(["0000000000000000"], None))
    requires forall syms, pc :: Emit(o, syms, pc, false) == Ok(Emitted([], Some(512)))
    ensures var r := Pass2([h, o], EndPass1AsWritten(a));
      r.Ok? && 0 in r.value.objectLines && r.value.objectLines[0] == [] && 512 in r.value.objectLines && r.value.objectLines[512] == []
  {
    var b := EndPass1AsWritten(a);
    Pass2StepAppends(h, b, ["0000000000000000"]);
    var c := Pass2Step(h, b).value;
    Pass2StepMoves(o, c, 512);
    Pass2Two(h, o, b);
  }

  /** The same two lines after the corrected end of pass 1. */
  lemma CorrectedRun(h: Line, o: Line, a: Assembly)
    requires 0 in a.objectLines && a.objectLines[0] == []
    requires forall syms, pc :: Emit(h, syms, pc, false) == Ok(Emitted(["0000000000000000"], None))
    requires forall syms, pc :: Emit(o, syms, pc, false) == Ok(Emitted([], Some(512)))
    ensures var r := Pass2([h, o], EndPass1(a));
      r.Ok? && 0 in r.value.objectLines && r.value.objectLines[0] == HexBytes(["0000000000000000"])
  {
    var b := EndPass1(a);
    var items := ["0000000000000000"];
    Pass2StepAppends(h, b, items);
    var c := Pass2Step(h, b).value;
    Pass2StepMoves(o, c, 512);
    Pass2Two(h, o, b);
  }
}
