/** `PDP11_Parser` as a class: the fields it updates in place and the
    loops of `precompile`, `code_programm`, `listing_comm`, `object_comm`,
    `resolve_args`, `recgnz_mode`'s caller and `code_pseudo_command`. Each
    method is proved to compute what the functions of `Encoder` and
    `Passes` specify, so the theorems proved there hold of the class. */
module Assembler {
  import opened Errors
  import opened Conversions
  import opened Operands
  import opened Encoder
  import opened Passes

  class Pdp11Parser {
    var programmCounter: int
    var currBlock: int
    var objectLines: map<int, seq<seq<char>>>
    var labels: map<seq<char>, int>
    var variables: map<seq<char>, seq<char>>
    var lines: seq<seq<char>>
    /** The records of the parsed lines, in order, kept for pass 2. */
    var parsedLines: seq<Line>

    /** The fields the passes change, as one value. */
    function State(): Assembly
      reads this
    {
      Assembly(programmCounter, currBlock, objectLines, labels, variables, lines)
    }

    /** The label and variable tables that operands are resolved against. */
    function Tables(): Symbols
      reads this
    {
      Symbols(labels, variables)
    }

    /** `__init__`: counter and current block 0, an empty block 0, nothing
        parsed yet. */
    constructor()
      ensures State() == Initial && parsedLines == []
    {
      programmCounter := 0;
      currBlock := 0;
      objectLines := map[0 := []];
      labels := map[];
      variables := map[];
      lines := [];
      parsedLines := [];
    }

    /** `resolve_args`: each operand in turn, stopping at the first one
        `int()` or `ord()` rejects. */
    method ResolveArgs(parsed: seq<Operand>, precompile: bool) returns (r: Result<seq<Operand>>)
      ensures r == ResolveAll(parsed, Tables(), precompile)
    {
      var done: seq<Operand> := [];
      var i := 0;
      while i < |parsed|
        invariant i <= |parsed|
        invariant ResolveAll(parsed[..i], Tables(), precompile) == Ok(done)
      {
        var op := ResolveOperand(parsed[i], Tables(), precompile);
        if op.Err? {
          ResolveAllStops(parsed, Tables(), precompile, i, done);
          return Err(op.error);
        }
        ResolveAllStep(parsed, Tables(), precompile, i, done);
        done := done + [op.value];
        i := i + 1;
      }
      assert parsed[..i] == parsed;
      r := Ok(done);
    }

    /** `code_command` against the tables and counter of the parser. */
    method CodeCommand(name: seq<char>, args: seq<seq<char>>, precompile: bool) returns (r: Result<Coded>)
      ensures r == Encoder.CodeCommand(name, args, Tables(), programmCounter, precompile)
    {
      if name !in Commands {
        return Err(UnknownOpcode(name));
      }
      var c := Commands[name];
      CommandsFillAWord(name);
      var parsed := RecognizeArgs(args);
      if parsed.Err? {
        return Err(parsed.error);
      }
      var ops := ResolveArgs(parsed.value, precompile);
      if ops.Err? {
        return Err(ops.error);
      }
      var f := Fields(c, ops.value, args, Tables(), programmCounter, precompile);
      if f.Err? {
        return Err(f.error);
      }
      var extra := ShiftOperand(c, args, Tables(), programmCounter, precompile);
      if extra.Err? {
        return Err(extra.error);
      }
      r := Ok(Coded(c.opcode + f.value, ops.value + extra.value));
    }

    /** The opcode word and, through `recgnz_mode`, the extension words of
        an instruction. Pass 1 asks for each word relative to 0; pass 2
        keeps `argument_counter`, the address of the last word so far, and
        asks for each word relative to the address after it. */
    method InstructionItems(name: seq<char>, args: seq<seq<char>>, precompile: bool) returns (r: Result<seq<seq<char>>>)
      ensures r == InstructionWords(name, args, Tables(), programmCounter, precompile)
    {
      var c := CodeCommand(name, args, precompile);
      if c.Err? {
        InstructionFails(name, args, Tables(), programmCounter, precompile);
        return Err(c.error);
      }
      var argument := programmCounter + 2;
      var ext := ExtensionItems(c.value.ops, argument, precompile);
      InstructionOf(name, args, Tables(), programmCounter, precompile, c, argument, ext);
      r := if ext.Err? then Err(ext.error) else Ok([c.value.word] + ext.value);
    }

    /** The loop over the operands after `code_command`, starting with
        `argument_counter` at `argument`, the address of the opcode word
        plus 2. */
    method ExtensionItems(ops: seq<Operand>, argument: int, precompile: bool) returns (r: Result<seq<seq<char>>>)
      ensures r == ExtFrom(ops, argument, precompile)
    {
      var done: seq<seq<char>> := [];
      var argumentCounter := argument;
      var i := 0;
      assert ops[0..] == ops;
      ThenEmpty(ExtFrom(ops, argument, precompile));
      while i < |ops|
        invariant i <= |ops|
        invariant Then(done, ExtFrom(ops[i..], argumentCounter, precompile)) == ExtFrom(ops, argument, precompile)
      {
        assert ops[i..][0] == ops[i] && ops[i..][1..] == ops[i + 1..];
        ExtFromStep(ops[i..], argumentCounter, precompile);
        var w := ExtensionWord(ops[i], if precompile then 0 else argumentCounter + 2);
        if w.Err? {
          return Err(w.error);
        }
        if w.value.Some? {
          ThenStep(done, w.value.value, ExtFrom(ops[i + 1..], argumentCounter + 2, precompile));
          done := done + [w.value.value];
          argumentCounter := argumentCounter + 2;
        }
        i := i + 1;
      }
      assert done + [] == done;
      r := Ok(done);
    }

    /** The `.WORD`/`.BYTE` loop of `code_pseudo_command`: one item of the
        width per argument, failing at the first argument `int()`, `ord()`
        or `bin` rejects. */
    method DataItems(args: seq<seq<char>>, width: nat) returns (r: Result<seq<seq<char>>>)
      ensures r == DataWords(args, width)
    {
      var numberLines: seq<seq<char>> := [];
      var i := 0;
      while i < |args|
        invariant i <= |args|
        invariant DataWords(args[..i], width) == Ok(numberLines)
      {
        var item := DataItem(args[i], width);
        if item.Err? {
          DataWordsStops(args, width, i, numberLines);
          return Err(item.error);
        }
        DataWordsStep(args, width, i, numberLines);
        numberLines := numberLines + [item.value];
        i := i + 1;
      }
      assert args[..i] == args;
      r := Ok(numberLines);
    }

    /** The `.ASCII`/`.ASCIZ` loop: one byte per character of the string. */
    method StringBytes(text: seq<char>) returns (r: Result<seq<seq<char>>>)
      ensures r == CharBytes(text)
    {
      var numberLines: seq<seq<char>> := [];
      var i := 0;
      while i < |text|
        invariant i <= |text|
        invariant CharBytes(text[..i]) == Ok(numberLines)
      {
        var b := CharByte(text[i]);
        if b.Err? {
          CharBytesStops(text, i, numberLines);
          return Err(b.error);
        }
        CharBytesStep(text, i, numberLines);
        numberLines := numberLines + [b.value];
        i := i + 1;
      }
      assert text[..i] == text;
      r := Ok(numberLines);
    }

    /** `code_pseudo_command`: the items of a directive; `.=` moves the
        counter and the current block to its address and gives that
        address a fresh empty block. Nothing changes when it fails. */
    method PseudoCommand(name: seq<char>, args: seq<seq<char>>, text: seq<char>) returns (r: Result<seq<seq<char>>>)
      modifies this
      ensures r.Ok? <==> PseudoWords(name, args, text).Ok?
      ensures r.Ok? ==> (r.value == PseudoWords(name, args, text).value.items &&
        State() == ApplyOrigin(PseudoWords(name, args, text).value, old(State())))
      ensures r.Err? ==> r.error == PseudoWords(name, args, text).error && State() == old(State())
      ensures parsedLines == old(parsedLines)
    {
      if name == ".=" {
        if args == [] {
          return Err(MissingArgument);
        }
        var address := ParseInt(args[0], 8);
        if address.Err? {
          return Err(address.error);
        }
        programmCounter := address.value;
        currBlock := address.value;
        objectLines := objectLines[address.value := []];
        return Ok([]);
      } else if name == ".WORD" || name == ".BYTE" {
        var width := if name == ".WORD" then 16 else 8;
        r := DataItems(args, width);
        if r.Ok? {
          assert DataEmitted(args, width).value.items == r.value;
        }
      } else if name == ".ASCII" || name == ".ASCIZ" {
        var stringArg := AsciiText(name, text);
        if stringArg.Err? {
          return Err(stringArg.error);
        }
        r := StringBytes(stringArg.value);
        if r.Ok? && name == ".ASCIZ" {
          r := Ok(r.value + [Zeros(8)]);
        }
        if r.Ok? {
          assert AsciiItems(stringArg.value, name == ".ASCIZ").value == r.value;
        }
      } else {
        r := Err(UnknownDirective(name));
      }
    }

    /** `listing_comm`: the line's address and text when it has text, then
        one line per item, a byte after two tabs at every other item (the
        toggle starts on); the counter moves past every item. */
    method ListingComm(text: seq<char>, items: seq<seq<char>>, current: int)
      requires AllItems(items)
      modifies this
      ensures State() == Passes.ListingComm(text, items, current, old(State()))
      ensures parsedLines == old(parsedLines)
    {
      if text != [] {
        lines := lines + [Oct(current, 6) + ":\t\t" + text];
      }
      ghost var s0 := State();
      ghost var listed := ItemLines(items);
      var tabulationForByte := false;
      var i := 0;
      while i < |items|
        invariant i <= |items|
        invariant lines == s0.lines + listed[..i]
        invariant programmCounter == s0.pc + Size(items[..i])
        invariant currBlock == s0.currBlock && objectLines == s0.objectLines
        invariant labels == s0.labels && variables == s0.variables && parsedLines == old(parsedLines)
        invariant tabulationForByte <==> i % 2 == 1
      {
        ParityStep(i);
        tabulationForByte := !tabulationForByte;
        var line := (if |items[i]| == 8 && tabulationForByte then "\t\t" else "\t") + BinToOct(items[i]);
        ItemLineAt(items, i);
        AppendNext(s0.lines, listed, i);
        SizeNext(items, i);
        lines := lines + [line];
        programmCounter := programmCounter + |items[i]| / 8;
        i := i + 1;
      }
      assert items[..i] == items && listed[..i] == listed;
    }

    /** `object_comm`: the items' bytes, low byte of a word first, are
        appended one at a time to the byte list of the current block. The
        current block has no list only when no `.=` created it, and then
        the dictionary lookup fails. */
    method ObjectComm(items: seq<seq<char>>) returns (r: Result<()>)
      requires AllItems(items)
      modifies this
      ensures r.Ok? <==> old(currBlock) in old(objectLines)
      ensures r.Ok? ==> objectLines == old(objectLines)[old(currBlock) := old(objectLines)[old(currBlock)] + HexBytes(items)]
      ensures r.Err? ==> r.error == NoSuchBlock(old(currBlock)) && objectLines == old(objectLines)
      ensures programmCounter == old(programmCounter) && currBlock == old(currBlock) && lines == old(lines)
      ensures labels == old(labels) && variables == old(variables) && parsedLines == old(parsedLines)
    {
      if currBlock !in objectLines {
        return Err(NoSuchBlock(currBlock));
      }
      ghost var objBytes := objectLines[currBlock];
      HexEnds(items, objBytes);
      assert objectLines[currBlock := objBytes] == objectLines;
      var i := 0;
      while i < |items|
        invariant i <= |items|
        invariant objectLines == old(objectLines)[currBlock := objBytes + BytesBefore(items, i)]
        invariant programmCounter == old(programmCounter) && currBlock == old(currBlock) && lines == old(lines)
        invariant labels == old(labels) && variables == old(variables) && parsedLines == old(parsedLines)
      {
        AppendBytes(BinToHex(items[i]));
        HexStep(items, i, objBytes);
        i := i + 1;
      }
      r := Ok(());
    }

    /** The inner loop of `object_comm`: the bytes are appended one by one
        to the list of the current block. */
    method AppendBytes(bytes: seq<seq<char>>)
      requires currBlock in objectLines
      modifies this
      ensures objectLines == old(objectLines)[old(currBlock) := old(objectLines)[old(currBlock)] + bytes]
      ensures programmCounter == old(programmCounter) && currBlock == old(currBlock) && lines == old(lines)
      ensures labels == old(labels) && variables == old(variables) && parsedLines == old(parsedLines)
    {
      ghost var before := objectLines[currBlock];
      var j := 0;
      assert before + bytes[..0] == before;
      assert objectLines[currBlock := before] == objectLines;
      while j < |bytes|
        invariant j <= |bytes|
        invariant objectLines == old(objectLines)[currBlock := before + bytes[..j]]
        invariant programmCounter == old(programmCounter) && currBlock == old(currBlock) && lines == old(lines)
        invariant labels == old(labels) && variables == old(variables) && parsedLines == old(parsedLines)
      {
        AppendNext(before, bytes, j);
        objectLines := objectLines[currBlock := objectLines[currBlock] + [bytes[j]]];
        j := j + 1;
      }
      assert bytes[..j] == bytes;
    }

    /** The items a parsed line emits: `code_pseudo_command` for a
        directive, `code_command` and `recgnz_mode` for an instruction,
        nothing otherwise; a labelled statement without arguments has no
        argument list to read. A `.=` moves the counter and the block. */
    method LineItems(line: Line, precompile: bool) returns (r: Result<seq<seq<char>>>)
      modifies this
      ensures var e := Emit(line, old(Tables()), old(programmCounter), precompile);
        (r.Ok? <==> e.Ok?) &&
        (r.Ok? ==> r.value == e.value.items && State() == ApplyOrigin(e.value, old(State()))) &&
        (r.Err? ==> r.error == e.error)
      ensures parsedLines == old(parsedLines)
    {
      if ArgsAbsent(line) {
        return Err(NoArgumentList);
      }
      match line.statement
      case Directive(d) =>
        r := PseudoCommand(d, line.args, line.text);
      case Instruction(n) =>
        r := InstructionItems(n, line.args, precompile);
      case NoStatement =>
        r := Ok([]);
    }

    /** The counter loop at the end of a pass-1 line: `len(comm) // 8`
        bytes per item. */
    method Advance(items: seq<seq<char>>)
      modifies this
      ensures programmCounter == old(programmCounter) + Size(items)
      ensures currBlock == old(currBlock) && objectLines == old(objectLines) && lines == old(lines)
      ensures labels == old(labels) && variables == old(variables) && parsedLines == old(parsedLines)
    {
      var k := 0;
      while k < |items|
        invariant k <= |items|
        invariant programmCounter == old(programmCounter) + Size(items[..k])
        invariant currBlock == old(currBlock) && objectLines == old(objectLines) && lines == old(lines)
        invariant labels == old(labels) && variables == old(variables) && parsedLines == old(parsedLines)
      {
        SizeNext(items, k);
        programmCounter := programmCounter + |items[k]| / 8;
        k := k + 1;
      }
      assert items[..k] == items;
    }

    /** One line of `precompile`: its items are sized, the label is bound
        to the counter after any `.=` of the line, the variable to the
        first argument, and the counter moves past the items. */
    method Pass1Line(line: Line) returns (r: Result<()>)
      modifies this
      ensures r.Ok? ==> Pass1Step(line, old(State())) == Ok(State())
      ensures r.Err? ==> Pass1Step(line, old(State())) == Err(r.error)
      ensures parsedLines == old(parsedLines)
    {
      ghost var a := State();
      var commands := LineItems(line, true);
      if commands.Err? {
        Pass1Fails(line, a);
        return Err(commands.error);
      }
      ghost var e := Emit(line, TablesOf(a), a.pc, true).value;
      ghost var b := State();
      assert b == ApplyOrigin(e, a) && commands.value == e.items;
      if line.labelName.Some? {
        labels := labels[line.labelName.value := programmCounter];
      }
      ghost var c := State();
      assert c == if line.labelName.Some? then b.(labels := b.labels[line.labelName.value := b.pc]) else b;
      if line.variable.Some? {
        if line.args == [] {
          Pass1Unbound(line, a, e);
          return Err(MissingArgument);
        }
        variables := variables[line.variable.value := line.args[0]];
      }
      ghost var d := State();
      assert d == if line.variable.Some? then c.(variables := c.variables[line.variable.value := line.args[0]]) else c;
      Advance(commands.value);
      Pass1Done(line, a, e, b, c, d, State());
      r := Ok(());
    }

    /** `precompile` over the parsed lines: each record is kept for pass 2
        and run through pass 1; at the end the counter and the current
        block go back to 0 for pass 2. */
    method Precompile(source: seq<Line>) returns (r: Result<()>)
      modifies this
      ensures var p := Pass1(source, old(State()));
        (r.Ok? <==> p.Ok?) && (r.Ok? ==> State() == EndPass1(p.value)) && (r.Err? ==> r.error == p.error)
      ensures r.Ok? ==> parsedLines == old(parsedLines) + source
    {
      ghost var s0 := State();
      var i := 0;
      while i < |source|
        invariant i <= |source|
        invariant Pass1(source[i..], State()) == Pass1(source, s0)
        invariant parsedLines == old(parsedLines) + source[..i]
      {
        parsedLines := parsedLines + [source[i]];
        assert source[..i + 1] == source[..i] + [source[i]];
        ghost var a := State();
        var step := Pass1Line(source[i]);
        if step.Err? {
          Pass1Halts(source, i, a, s0, step.error);
          return Err(step.error);
        }
        Pass1Continues(source, i, a, State(), s0);
        i := i + 1;
      }
      assert source[..i] == source && source[i..] == [];
      programmCounter := 0;
      currBlock := 0;
      r := Ok(());
    }

    /** One line of `code_programm`: the counter is noted before the line's
        items are made, then `listing_comm` and `object_comm` run. */
    method Pass2Line(line: Line) returns (r: Result<()>)
      modifies this
      ensures r.Ok? ==> Pass2Step(line, old(State())) == Ok(State())
      ensures r.Err? ==> Pass2Step(line, old(State())) == Err(r.error)
      ensures parsedLines == old(parsedLines)
    {
      ghost var a := State();
      var current := programmCounter;
      var commands := LineItems(line, false);
      if commands.Err? {
        Pass2Fails(line, a);
        return Err(commands.error);
      }
      ghost var e := Emit(line, TablesOf(a), a.pc, false).value;
      Pass2Binds(line, a, e);
      assert State() == ApplyOrigin(e, a) && commands.value == e.items;
      ListingComm(line.text, commands.value, current);
      ghost var c := State();
      var placed := ObjectComm(commands.value);
      if placed.Err? {
        OutputBlocked(line, e, current, a, c);
        return Err(placed.error);
      }
      OutputDone(line, e, current, a, c, State());
      r := Ok(());
    }

    /** `code_programm`: pass 2 over the records kept by `precompile`. */
    method CodeProgramm() returns (r: Result<()>)
      modifies this
      ensures var p := Pass2(old(parsedLines), old(State()));
        (r.Ok? <==> p.Ok?) && (r.Ok? ==> State() == p.value) && (r.Err? ==> r.error == p.error)
      ensures parsedLines == old(parsedLines)
    {
      ghost var s0 := State();
      var i := 0;
      while i < |parsedLines|
        invariant i <= |parsedLines| && parsedLines == old(parsedLines)
        invariant Pass2(parsedLines[i..], State()) == Pass2(parsedLines, s0)
      {
        Pass2Unfold(parsedLines, i, State());
        var step := Pass2Line(parsedLines[i]);
        if step.Err? {
          return Err(step.error);
        }
        i := i + 1;
      }
      assert parsedLines[i..] == [];
      r := Ok(());
    }

    /** `compile` without the files: both passes over the parsed lines of a
        freshly constructed assembler. */
    method Compile(source: seq<Line>) returns (r: Result<()>)
      requires State() == Initial && parsedLines == []
      modifies this
      ensures var p := Assemble(source);
        (r.Ok? <==> p.Ok?) && (r.Ok? ==> State() == p.value) && (r.Err? ==> r.error == p.error)
    {
      var first := Precompile(source);
      if first.Err? {
        AssembleStops(source);
        return first;
      }
      ghost var p := Pass1(source, Initial).value;
      AssembleGoesOn(source, p);
      assert parsedLines == source;
      assert State() == EndPass1(p);
      r := CodeProgramm();
    }
  }

  /** Pass 1 over a suffix is one step followed by pass 1 over the rest. */
  lemma Pass1Unfold(source: seq<Line>, i: nat, a: Assembly)
    requires i < |source|
    ensures Pass1(source[i..], a) ==
      match Pass1Step(source[i], a)
      case Err(x) => Err(x)
      case Ok(b) => Pass1(source[i + 1..], b)
  {
    assert source[i..][1..] == source[i + 1..];
  }

  lemma Pass1Halts(source: seq<Line>, i: nat, a: Assembly, s0: Assembly, x: Error)
    requires i < |source| && Pass1(source[i..], a) == Pass1(source, s0)
    requires Pass1Step(source[i], a) == Err(x)
    ensures Pass1(source, s0) == Err(x)
  {
    Pass1Unfold(source, i, a);
  }

  lemma Pass1Continues(source: seq<Line>, i: nat, a: Assembly, b: Assembly, s0: Assembly)
    requires i < |source| && Pass1(source[i..], a) == Pass1(source, s0)
    requires Pass1Step(source[i], a) == Ok(b)
    ensures Pass1(source[i + 1..], b) == Pass1(source, s0)
  {
    Pass1Unfold(source, i, a);
  }

  /** Pass 2 over a suffix is one step followed by pass 2 over the rest. */
  lemma Pass2Unfold(source: seq<Line>, i: nat, a: Assembly)
    requires i < |source|
    ensures Pass2(source[i..], a) ==
      match Pass2Step(source[i], a)
      case Err(x) => Err(x)
      case Ok(b) => Pass2(source[i + 1..], b)
  {
    assert source[i..][1..] == source[i + 1..];
  }

  lemma AssembleStops(source: seq<Line>)
    requires Pass1(source, Initial).Err?
    ensures Assemble(source) == Err(Pass1(source, Initial).error)
  {
  }

  lemma AssembleGoesOn(source: seq<Line>, p: Assembly)
    requires Pass1(source, Initial) == Ok(p)
    ensures Assemble(source) == Pass2(source, EndPass1(p))
  {
  }

  lemma Pass2Fails(line: Line, a: Assembly)
    requires Emit(line, TablesOf(a), a.pc, false).Err?
    ensures Pass2Step(line, a) == Err(Emit(line, TablesOf(a), a.pc, false).error)
  {
  }

  lemma Pass2Binds(line: Line, a: Assembly, e: Emitted)
    requires Emit(line, TablesOf(a), a.pc, false) == Ok(e)
    ensures Pass2Step(line, a) == Output(line, e, a.pc, a)
  {
  }

  lemma OutputBlocked(line: Line, e: Emitted, current: int, a: Assembly, c: Assembly)
    requires AllItems(e.items)
    requires c == ListingComm(line.text, e.items, current, ApplyOrigin(e, a))
    requires c.currBlock !in c.objectLines
    ensures Output(line, e, current, a) == Err(NoSuchBlock(c.currBlock))
  {
  }

  lemma OutputDone(line: Line, e: Emitted, current: int, a: Assembly, c: Assembly, s: Assembly)
    requires AllItems(e.items)
    requires c == ListingComm(line.text, e.items, current, ApplyOrigin(e, a))
    requires c.currBlock in c.objectLines
    requires s == c.(objectLines := c.objectLines[c.currBlock := c.objectLines[c.currBlock] + HexBytes(e.items)])
    ensures Output(line, e, current, a) == Ok(s)
  {
  }

  lemma Pass1Fails(line: Line, a: Assembly)
    requires Emit(line, TablesOf(a), a.pc, true).Err?
    ensures Pass1Step(line, a) == Err(Emit(line, TablesOf(a), a.pc, true).error)
  {
  }

  lemma Pass1Unbound(line: Line, a: Assembly, e: Emitted)
    requires Emit(line, TablesOf(a), a.pc, true) == Ok(e)
    requires line.variable.Some? && line.args == []
    ensures Pass1Step(line, a) == Err(MissingArgument)
  {
  }

  /** The three updates of a pass-1 line and the counter loop, one state
      at a time, make up `Pass1Step`. */
  lemma Pass1Done(line: Line, a: Assembly, e: Emitted, b: Assembly, c: Assembly, d: Assembly, s: Assembly)
    requires Emit(line, TablesOf(a), a.pc, true) == Ok(e)
    requires b == ApplyOrigin(e, a)
    requires c == if line.labelName.Some? then b.(labels := b.labels[line.labelName.value := b.pc]) else b
    requires !(line.variable.Some? && line.args == [])
    requires d == if line.variable.Some? then c.(variables := c.variables[line.variable.value := line.args[0]]) else c
    requires s == d.(pc := d.pc + Size(e.items))
    ensures Pass1Step(line, a) == Ok(s)
  {
    Pass1Binds(line, a, e);
    Recorded(line, e, a, b, c, d);
  }

  lemma Pass1Binds(line: Line, a: Assembly, e: Emitted)
    requires Emit(line, TablesOf(a), a.pc, true) == Ok(e)
    ensures Pass1Step(line, a) == Record(line, e, a)
  {
  }

  lemma Recorded(line: Line, e: Emitted, a: Assembly, b: Assembly, c: Assembly, d: Assembly)
    requires b == ApplyOrigin(e, a)
    requires c == if line.labelName.Some? then b.(labels := b.labels[line.labelName.value := b.pc]) else b
    requires !(line.variable.Some? && line.args == [])
    requires d == if line.variable.Some? then c.(variables := c.variables[line.variable.value := line.args[0]]) else c
    ensures Record(line, e, a) == Ok(d.(pc := d.pc + Size(e.items)))
  {
  }

  /** The extension words of the operands, as either pass computes them. */
  function ExtFrom(ops: seq<Operand>, argument: int, precompile: bool): Result<seq<seq<char>>>
  {
    if precompile then PlaceholderWords(ops) else ExtWords(ops, argument)
  }

  lemma InstructionFails(name: seq<char>, args: seq<seq<char>>, syms: Symbols, pc: int, precompile: bool)
    requires Encoder.CodeCommand(name, args, syms, pc, precompile).Err?
    ensures InstructionWords(name, args, syms, pc, precompile) == Err(Encoder.CodeCommand(name, args, syms, pc, precompile).error)
  {
  }

  lemma InstructionOf(name: seq<char>, args: seq<seq<char>>, syms: Symbols, pc: int, precompile: bool,
    c: Result<Coded>, argument: int, ext: Result<seq<seq<char>>>)
    requires c.Ok? && Encoder.CodeCommand(name, args, syms, pc, precompile) == c
    requires argument == pc + 2 && ext == ExtFrom(c.value.ops, argument, precompile)
    ensures InstructionWords(name, args, syms, pc, precompile) == if ext.Err? then Err(ext.error) else Ok([c.value.word] + ext.value)
  {
  }

  /** The words found so far followed by the words still to come. */
  function Then(done: seq<seq<char>>, rest: Result<seq<seq<char>>>): (r: Result<seq<seq<char>>>)
    ensures r.Ok? <==> rest.Ok?
    ensures r.Ok? ==> |r.value| == |done| + |rest.value|
  {
    if rest.Err? then Err(rest.error) else Ok(done + rest.value)
  }

  /** The bytes of the first `i` items. */
  function BytesBefore(items: seq<seq<char>>, i: nat): seq<seq<char>>
    requires AllItems(items) && i <= |items|
  {
    PrefixItems(items, i);
    HexBytes(items[..i])
  }

  /** The bytes of item `i` follow those of the items before it. */
  lemma HexStep(items: seq<seq<char>>, i: nat, pre: seq<seq<char>>)
    requires AllItems(items) && i < |items|
    ensures pre + BytesBefore(items, i) + BinToHex(items[i]) == pre + BytesBefore(items, i + 1)
  {
    PrefixItems(items, i + 1);
    assert items[..i + 1][..i] == items[..i];
  }

  lemma HexEnds(items: seq<seq<char>>, pre: seq<seq<char>>)
    requires AllItems(items)
    ensures pre + BytesBefore(items, 0) == pre && BytesBefore(items, |items|) == HexBytes(items)
  {
    assert items[..0] == [] && items[..|items|] == items;
  }

  /** The line `listing_comm` prints for item `i` is listing line `i`. */
  lemma ItemLineAt(items: seq<seq<char>>, i: nat)
    requires AllItems(items) && i < |items|
    ensures ItemLines(items)[i] == (if |items[i]| == 8 && i % 2 == 0 then "\t\t" else "\t") + BinToOct(items[i])
  {
  }

  lemma AppendNext<T>(pre: seq<T>, xs: seq<T>, i: nat)
    requires i < |xs|
    ensures pre + xs[..i] + [xs[i]] == pre + xs[..i + 1]
  {
    assert xs[..i + 1] == xs[..i] + [xs[i]];
  }

  lemma SizeNext(items: seq<seq<char>>, i: nat)
    requires i < |items|
    ensures Size(items[..i + 1]) == Size(items[..i]) + |items[i]| / 8
  {
    assert items[..i + 1][..i] == items[..i];
  }

  lemma ParityStep(i: nat)
    ensures i % 2 == 0 || i % 2 == 1
    ensures (i + 1) % 2 == 1 <==> i % 2 == 0
  {
  }

  lemma ThenEmpty(rest: Result<seq<seq<char>>>)
    ensures Then([], rest) == rest
  {
    if rest.Ok? {
      assert [] + rest.value == rest.value;
    }
  }

  /** One operand's word, then the words of the rest: `recgnz_mode` asked
      relative to 0 in pass 1 and to the address after the word in pass 2. */
  lemma ExtFromStep(ops: seq<Operand>, argument: int, precompile: bool)
    requires ops != []
    ensures var w := ExtensionWord(ops[0], if precompile then 0 else argument + 2);
      ExtFrom(ops, argument, precompile) ==
        if w.Err? then Err(w.error)
        else if w.value.None? then ExtFrom(ops[1..], argument, precompile)
        else
          var rest := ExtFrom(ops[1..], argument + 2, precompile);
          if rest.Err? then Err(rest.error) else Ok([w.value.value] + rest.value)
  {
  }

  lemma ThenStep(done: seq<seq<char>>, w: seq<char>, rest: Result<seq<seq<char>>>)
    ensures Then(done, if rest.Err? then Err(rest.error) else Ok([w] + rest.value)) == Then(done + [w], rest)
  {
    if rest.Ok? {
      assert done + ([w] + rest.value) == done + [w] + rest.value;
    }
  }
}
