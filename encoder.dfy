/** The instruction encoder and the pseudo-op handler of `pdp11_compiler.py`:
    the `COMMANDS` table, `resolve_args`, `code_command`, `recgnz_mode` and
    `code_pseudo_command`, as functions of the symbol tables and the program
    counter they read. The state they change (the counter and the current
    object block under `.=`) is returned as a value and applied by the
    passes. */
module Encoder {
  import opened Errors
  import opened Conversions
  import opened Operands

  /** One row of the command table: the opcode bits and which operand
      fields follow them. */
  datatype Command = Command(
    name: seq<char>,
    opcode: seq<char>,
    hasSs: bool,
    hasDd: bool,
    hasNn: bool,
    hasR: bool,
    hasXx: bool,
    printShift: bool)

  const Commands: map<seq<char>, Command> := map[
    "mov" := Command("mov", "0001", true, true, false, false, false, false),
    "movb" := Command("movb", "1001", true, true, false, false, false, false),
    "add" := Command("add", "0110", true, true, false, false, false, false),
    "halt" := Command("halt", "0000000000000000", false, false, false, false, false, false),
    "sob" := Command("sob", "0111111", false, false, true, true, false, false),
    "br" := Command("br", "00000001", false, false, false, false, true, false),
    "clr" := Command("clr", "0000101000", false, true, false, false, false, false),
    "beq" := Command("beq", "00000011", false, false, false, false, true, false),
    "tstb" := Command("tstb", "1000101111", false, true, false, false, false, false),
    "bpl" := Command("bpl", "10000000", false, false, false, false, true, false),
    "jsr" := Command("jsr", "0000100", false, true, false, true, false, true),
    "rts" := Command("jsr", "0000000010000", false, false, false, true, false, false)
  ]

  /** The number of bits a command's opcode and fields occupy. */
  function FieldWidth(c: Command): nat
  {
    |c.opcode| + (if c.hasR then 3 else 0) + (if c.hasSs then 6 else 0) + (if c.hasDd then 6 else 0) +
    (if c.hasNn then 6 else 0) + (if c.hasXx then 8 else 0)
  }

  /** Every mnemonic fills exactly one 16-bit word. */
  lemma CommandsFillAWord(n: seq<char>)
    requires n in Commands
    ensures IsBits(Commands[n].opcode) && FieldWidth(Commands[n]) == 16
  {
  }

  // ---------------------------------------------------------------------
  // resolve_args
  // ---------------------------------------------------------------------

  /** The tables collected by pass 1: label addresses and the literal text
      assigned to each variable. */
  datatype Symbols = Symbols(labels: map<seq<char>, int>, variables: map<seq<char>, seq<char>>)

  /** `resolve_args` on one operand. A constant with a decimal point and an
      ASCII literal of other than one character are the values `int()` and
      `ord()` reject. An ASCII literal becomes its code in octal. Names are
      replaced only in pass 2: a label by its address in octal, a variable
      by its value as a six-digit decimal literal. A mode-6 reference keeps
      its name beside the value, so it takes no extension word in either
      pass; the original keeps it for a label only (see
      `ResolveOperandAsWritten`). */
  function ResolveOperand(op: Operand, syms: Symbols, precompile: bool): (r: Result<Operand>)
    ensures r.Ok? ==> r.value.mode == op.mode && !r.value.payload.Symbol?
    ensures r.Err? <==> ((op.payload.Const? && op.payload.digits != [] && op.payload.digits[|op.payload.digits| - 1] == '.') ||
      (op.payload.Symbol? && |op.payload.text| != 1) ||
      (op.payload.Name? && !precompile && op.payload.name !in syms.labels && op.payload.name in syms.variables &&
        syms.variables[op.payload.name] != [] && ParseInt(syms.variables[op.payload.name], 10).Err?))
    ensures (op.payload.Reg? || op.payload.Indexed? || op.payload.NameRef? || (op.payload.Name? && precompile)) ==> r == Ok(op)
  {
    match op.payload
    case Const(d) => if d != [] && d[|d| - 1] == '.' then Err(BadLiteral(d)) else Ok(op)
    case Symbol(t) => if |t| == 1 then Ok(Operand(op.mode, Const(OctText(t[0] as int)))) else Err(BadLiteral(t))
    case Name(n) =>
      if precompile then Ok(op)
      else if n in syms.labels then Ok(Operand(op.mode, Kept(op.mode, n, OctText(syms.labels[n]))))
      else if n in syms.variables && syms.variables[n] != [] then
        match ParseInt(syms.variables[n], 10)
        case Err(e) => Err(e)
        case Ok(v) => Ok(Operand(op.mode, Kept(op.mode, n, PadNumeral(v, 10, 6))))
      else Ok(op)
    case _ => Ok(op)
  }

  /** The value text of a resolved name, with the name kept in mode 6. */
  function Kept(m: Mode, n: seq<char>, text: seq<char>): Payload
  {
    if m == 6 then NameRef(n, text) else Const(text)
  }

  /** What `resolve_args` substitutes: an ASCII literal becomes its code in
      octal; in pass 2 a label becomes its octal address and a variable its
      six-digit decimal value, a mode-6 reference keeping its name beside
      the value; a name in neither table stays as it is. */
  lemma ResolveSubstitutes(op: Operand, syms: Symbols, precompile: bool)
    ensures var r := ResolveOperand(op, syms, precompile);
      (op.payload.Const? && r.Ok? ==> r == Ok(op)) &&
      (op.payload.Symbol? && r.Ok? ==> r.value.payload == Const(OctText(op.payload.text[0] as int))) &&
      (op.payload.Name? && !precompile && op.payload.name in syms.labels ==>
        r.Ok? && r.value.payload == Kept(op.mode, op.payload.name, OctText(syms.labels[op.payload.name]))) &&
      ((op.payload.Name? && !precompile && op.payload.name !in syms.labels && op.payload.name in syms.variables &&
        syms.variables[op.payload.name] != [] && r.Ok?) ==>
        ParseInt(syms.variables[op.payload.name], 10).Ok? &&
        r.value.payload == Kept(op.mode, op.payload.name, PadNumeral(ParseInt(syms.variables[op.payload.name], 10).value, 10, 6))) &&
      ((op.payload.Name? && op.payload.name !in syms.labels &&
        (op.payload.name !in syms.variables || syms.variables[op.payload.name] == [])) ==> r == Ok(op))
  {
  }

  /** What a resolved operand's value text reads back as: an ASCII literal
      its character code, a label its address, a variable its value. */
  lemma ResolvedValues(op: Operand, syms: Symbols)
    requires ResolveOperand(op, syms, false).Ok?
    requires op.payload.Symbol? || op.payload.Name?
    requires op.payload.Name? ==> op.payload.name in syms.labels || (op.payload.name in syms.variables && syms.variables[op.payload.name] != [])
    ensures var p := ResolveOperand(op, syms, false).value.payload;
      (p.Const? || p.NameRef?) &&
      (op.payload.Symbol? ==> ParseInt(p.digits, 8) == Ok(op.payload.text[0] as int)) &&
      (op.payload.Name? && op.payload.name in syms.labels && syms.labels[op.payload.name] >= 0 ==>
        ParseInt(p.digits, 8) == Ok(syms.labels[op.payload.name])) &&
      (op.payload.Name? && op.payload.name !in syms.labels ==>
        ParseInt(p.digits, 10) == ParseInt(syms.variables[op.payload.name], 10))
  {
    var p := ResolveOperand(op, syms, false).value.payload;
    if op.payload.Symbol? {
      OctTextParses(op.payload.text[0] as int);
    } else if op.payload.name in syms.labels {
      if syms.labels[op.payload.name] >= 0 {
        OctTextParses(syms.labels[op.payload.name]);
      }
    } else {
      DecimalParses(ParseInt(syms.variables[op.payload.name], 10).value, 6);
    }
  }

  /** A label referenced outside mode 6 gets, in pass 2, an extension word
      holding the label's address. */
  lemma LabelWord(m: Mode, l: seq<char>, syms: Symbols, counter: int)
    requires m != 6 && l in syms.labels && 0 <= syms.labels[l] < Pow2(16)
    ensures var r := ResolveOperand(Operand(m, Name(l)), syms, false);
      r.Ok? && ExtensionWord(r.value, counter).Ok? && ExtensionWord(r.value, counter).value.Some? &&
      BitsValue(ExtensionWord(r.value, counter).value.value) == syms.labels[l]
  {
    var a := syms.labels[l];
    OctTextParses(a);
    assert ResolveOperand(Operand(m, Name(l)), syms, false) == Ok(Operand(m, Const(OctText(a))));
    ConstantOf(m, OctText(a), a, counter);
  }

  /** `resolve_args` as written: a mode-6 reference to a variable loses its
      name and becomes a plain constant, which takes an extension word in
      pass 2 that pass 1 did not reserve for the bare name. */
  function ResolveOperandAsWritten(op: Operand, syms: Symbols, precompile: bool): (r: Result<Operand>)
    ensures !(!precompile && RelativeVariableRef(op, syms)) ==> r == ResolveOperand(op, syms, precompile)
  {
    var r := ResolveOperand(op, syms, precompile);
    if !precompile && RelativeVariableRef(op, syms) && r.Ok? && r.value.payload.NameRef? then Ok(Operand(6, Const(r.value.payload.digits))) else r
  }

  /** `N = 5`, then `clr N`: the operand is a mode-6 name. Pass 1 leaves it
      bare, without a word; as written, pass 2 makes it a constant with a
      word, so the instruction grows from 2 to 4 bytes and every later label
      is off by 2. Corrected, pass 2 keeps the name and the size. */
  lemma RelativeVariableGrowsAsWritten()
    ensures var op := Operand(6, Name("N")); var syms := Symbols(map[], map["N" := "5"]);
      RecognizeArgs(["N"]) == Ok([op]) &&
      ResolveOperand(op, syms, true) == Ok(op) && !NeedsWord(op) &&
      ResolveOperandAsWritten(op, syms, false).Ok? && NeedsWord(ResolveOperandAsWritten(op, syms, false).value) &&
      ResolveOperand(op, syms, false).Ok? && !NeedsWord(ResolveOperand(op, syms, false).value)
  {
    NameOperand();
    VariableResolved();
  }

  /** Pass 2 resolves the mode-6 name `N` of a variable holding "5": the
      original makes it a constant, the corrected resolution keeps it. */
  lemma VariableResolved()
    ensures var op := Operand(6, Name("N")); var syms := Symbols(map[], map["N" := "5"]);
      ResolveOperandAsWritten(op, syms, false).Ok? && ResolveOperandAsWritten(op, syms, false).value.payload.Const? &&
      ResolveOperand(op, syms, false).Ok? && ResolveOperand(op, syms, false).value.payload.NameRef?
  {
    var op := Operand(6, Name("N"));
    var syms := Symbols(map[], map["N" := "5"]);
    FiveParses();
    assert "N" !in syms.labels && syms.variables["N"] == "5";
    assert RelativeVariableRef(op, syms);
    ResolveSubstitutes(op, syms, false);
    var r := ResolveOperand(op, syms, false);
    assert r.Ok?;
    assert r.value.payload == Kept(6, "N", PadNumeral(5, 10, 6));
  }

  lemma FiveParses()
    ensures ParseInt("5", 10) == Ok(5)
  {
  }

  /** The operand `N` is a relative (mode 6) name. */
  lemma NameOperand()
    ensures RecognizeArgs(["N"]) == Ok([Operand(6, Name("N"))])
  {
    RelativeForm("N");
    assert ValuePayload("N") == Name("N");
    var args: seq<seq<char>> := ["N"];
    assert args[0] == "N";
    var parsed := RecognizeArgs(args);
    assert parsed.Ok? && |parsed.value| == 1 && parsed.value[0] == Operand(6, Name("N"));
    assert parsed.value == [Operand(6, Name("N"))];
  }

  /** `resolve_args` over the operand list, element by element. */
  function ResolveAll(ops: seq<Operand>, syms: Symbols, precompile: bool): (r: Result<seq<Operand>>)
    ensures r.Ok? ==> (|r.value| == |ops| &&
      forall i :: 0 <= i < |ops| ==> ResolveOperand(ops[i], syms, precompile) == Ok(r.value[i]))
    ensures r.Err? <==> exists i :: 0 <= i < |ops| && ResolveOperand(ops[i], syms, precompile).Err?
  {
    Collect(op => ResolveOperand(op, syms, precompile), ops)
  }

  /** Resolving one more operand extends the resolved prefix. */
  lemma ResolveAllStep(ops: seq<Operand>, syms: Symbols, precompile: bool, k: nat, done: seq<Operand>)
    requires k < |ops| && ResolveAll(ops[..k], syms, precompile) == Ok(done) && ResolveOperand(ops[k], syms, precompile).Ok?
    ensures ResolveAll(ops[..k + 1], syms, precompile) == Ok(done + [ResolveOperand(ops[k], syms, precompile).value])
  {
    CollectStep(op => ResolveOperand(op, syms, precompile), ops, k, done);
  }

  /** The first operand that fails decides the error of the whole list. */
  lemma ResolveAllStops(ops: seq<Operand>, syms: Symbols, precompile: bool, k: nat, done: seq<Operand>)
    requires k < |ops| && ResolveAll(ops[..k], syms, precompile) == Ok(done) && ResolveOperand(ops[k], syms, precompile).Err?
    ensures ResolveAll(ops, syms, precompile) == Err(ResolveOperand(ops[k], syms, precompile).error)
  {
    CollectStops(op => ResolveOperand(op, syms, precompile), ops, k, done);
  }

  // ---------------------------------------------------------------------
  // recgnz_mode: extension words
  // ---------------------------------------------------------------------

  /** `recgnz_mode`: the extension word an operand needs, if any. A name
      still unresolved outside mode 6 gets a zero placeholder; a mode-6 name
      (a label reference or a pass-1 name) gets none. An index shift and a
      constant are written as 16-bit two's complement; a mode-6 constant is
      first made relative to `counter`, the address after its own word. A
      value that does not fit 16 bits (Python would write a wider or signed
      string) is an error. */
  function ExtensionWord(op: Operand, counter: int): (r: Result<Option<seq<char>>>)
    ensures r.Ok? && r.value.Some? ==> |r.value.value| == 16 && IsBits(r.value.value)
    ensures (op.payload.Name? || op.payload.NameRef?) ==> r.Ok? && (r.value.Some? <==> op.mode != 6)
    ensures (op.payload.Name? || op.payload.NameRef?) && r.Ok? && r.value.Some? ==> BitsValue(r.value.value) == 0
    ensures (op.payload.Reg? || op.payload.Symbol?) ==> r == Ok(None)
    ensures (op.payload.Const? || op.payload.Indexed?) ==> (r.Ok? ==> r.value.Some?)
  {
    match op.payload
    case Name(_) => Ok(if op.mode != 6 then Some(Zeros(16)) else None)
    case NameRef(_, _) => Ok(if op.mode != 6 then Some(Zeros(16)) else None)
    case Reg(_) => Ok(None)
    case Symbol(_) => Ok(None)
    case Indexed(shift, _) => Lift(IndexWord(shift))
    case Const(c) => Lift(ConstantBits(c, op.mode == 6, counter))
  }

  function Lift(w: Result<seq<char>>): (r: Result<Option<seq<char>>>)
    ensures r.Ok? <==> w.Ok?
    ensures r.Ok? ==> r.value == Some(w.value)
  {
    if w.Err? then Err(w.error) else Ok(Some(w.value))
  }

  /** The word of an index shift: the octal shift in 16-bit two's
      complement. */
  function IndexWord(shift: seq<char>): (r: Result<seq<char>>)
    ensures r.Ok? ==> |r.value| == 16 && IsBits(r.value)
    ensures r.Ok? <==> (ParseInt(shift, 8).Ok? && Unsigned(ParseInt(shift, 8).value, 16) < Pow2(16) &&
      0 <= Unsigned(ParseInt(shift, 8).value, 16))
    ensures r.Ok? ==> BitsValue(r.value) == Unsigned(ParseInt(shift, 8).value, 16)
  {
    var n := ParseInt(shift, 8);
    if n.Err? then Err(n.error) else FormatBits(Unsigned(n.value, 16), 16)
  }

  /** The word of a constant: the octal constant in 16-bit two's
      complement, made relative to `counter` when `relative`. */
  function ConstantBits(c: seq<char>, relative: bool, counter: int): (r: Result<seq<char>>)
    ensures r.Ok? ==> |r.value| == 16 && IsBits(r.value)
    ensures r.Ok? ==> ParseInt(c, 8).Ok?
    ensures r.Ok? ==> BitsValue(r.value) == RelativeTo(Unsigned(ParseInt(c, 8).value, 16), relative, counter)
    ensures ParseInt(c, 8).Ok? ==> (r.Ok? <==> 0 <= RelativeTo(Unsigned(ParseInt(c, 8).value, 16), relative, counter) < Pow2(16))
  {
    var n := ParseInt(c, 8);
    if n.Err? then Err(n.error) else FormatBits(RelativeTo(Unsigned(n.value, 16), relative, counter), 16)
  }

  /** `v` made relative to `counter` and wrapped to an unsigned 16-bit value
      when `relative`, and `v` itself otherwise. */
  function RelativeTo(v: int, relative: bool, counter: int): int
  {
    if !relative then v else if v - counter < 0 then Pow2(16) + (v - counter) else v - counter
  }

  /** Whether an operand takes an extension word. This does not depend on
      the counter. */
  predicate NeedsWord(op: Operand)
  {
    match op.payload
    case Name(_) => op.mode != 6
    case NameRef(_, _) => op.mode != 6
    case Const(_) => true
    case Indexed(_, _) => true
    case _ => false
  }

  lemma ExtensionWordNeeds(op: Operand, counter: int)
    requires ExtensionWord(op, counter).Ok?
    ensures ExtensionWord(op, counter).value.Some? <==> NeedsWord(op)
  {
  }

  /** An immediate or absolute constant: the word holds the constant's value
      in 16-bit two's complement. */
  lemma ConstantWord(m: Mode, n: int, w: int, counter: int)
    requires m != 6 && -(Pow2(16) as int) < n < Pow2(16)
    ensures ExtensionWord(Operand(m, Const(Oct(n, w))), counter) == Ok(Some(NatBits(Unsigned(n, 16), 16)))
  {
    OctParses(n, w);
    ConstantOf(m, Oct(n, w), n, counter);
  }

  lemma ConstantOf(m: Mode, c: seq<char>, n: int, counter: int)
    requires m != 6 && ParseInt(c, 8) == Ok(n) && -(Pow2(16) as int) < n < Pow2(16)
    ensures ExtensionWord(Operand(m, Const(c)), counter) == Ok(Some(NatBits(Unsigned(n, 16), 16)))
  {
    var b := ConstantBits(c, false, counter);
    assert RelativeTo(Unsigned(n, 16), false, counter) == Unsigned(n, 16);
    assert b.Ok?;
    BitsRoundTrip(b.value);
  }

  /** A relative (mode 6) constant: adding the word to the address after it
      gives the constant back, modulo 2^16. */
  lemma RelativeWord(n: int, w: int, counter: int)
    requires 0 <= n < Pow2(16) && 0 <= counter < Pow2(16)
    ensures var r := ExtensionWord(Operand(6, Const(Oct(n, w))), counter);
      r.Ok? && r.value.Some? && (counter + BitsValue(r.value.value)) % Pow2(16) == n
  {
    OctParses(n, w);
    RelativeOf(Oct(n, w), n, counter);
  }

  lemma RelativeOf(c: seq<char>, n: int, counter: int)
    requires ParseInt(c, 8) == Ok(n) && 0 <= n < Pow2(16) && 0 <= counter < Pow2(16)
    ensures var r := ExtensionWord(Operand(6, Const(c)), counter);
      r.Ok? && r.value.Some? && (counter + BitsValue(r.value.value)) % Pow2(16) == n
  {
    RelativeWraps(n, counter);
    assert Unsigned(n, 16) == n;
    var v := RelativeTo(n, true, counter);
    var b := ConstantBits(c, true, counter);
    assert b.Ok? && BitsValue(b.value) == v;
    assert ExtensionWord(Operand(6, Const(c)), counter) == Lift(b);
  }

  /** Made relative to `counter` and wrapped, `n` is a 16-bit value that
      gives `n` back when added to `counter` modulo 2^16. */
  lemma RelativeWraps(n: int, counter: int)
    requires 0 <= n < Pow2(16) && 0 <= counter < Pow2(16)
    ensures 0 <= RelativeTo(n, true, counter) < Pow2(16)
    ensures (counter + RelativeTo(n, true, counter)) % Pow2(16) == n
  {
    WrapAround(n, counter, RelativeTo(n, true, counter), Pow2(16));
  }

  lemma WrapAround(n: int, counter: int, v: int, p: int)
    requires 0 <= n < p && (v == n - counter || v == p + (n - counter))
    ensures (counter + v) % p == n
  {
    if v == n - counter {
      assert counter + v == n;
    } else {
      assert counter + v == n + p;
    }
  }

  /** An index shift is written in 16-bit two's complement. */
  lemma ShiftWord(d: seq<char>, reg: seq<char>, m: Mode, counter: int)
    requires ParseInt(d, 8).Ok? && -(Pow2(15) as int) <= ParseInt(d, 8).value < Pow2(15)
    ensures var r := ExtensionWord(Operand(m, Indexed(d, reg)), counter);
      r.Ok? && r.value.Some? && SignedValue(r.value.value) == ParseInt(d, 8).value
  {
    var b := IndexWord(d);
    assert Unsigned(ParseInt(d, 8).value, 16) < Pow2(16) by {
      BinSignedRoundTrip(ParseInt(d, 8).value, 16);
    }
    SignedOfUnsigned(b.value, ParseInt(d, 8).value);
    assert ExtensionWord(Operand(m, Indexed(d, reg)), counter) == Ok(Some(b.value));
  }

  /** The 16 bits holding `Unsigned(n, 16)` read back as `n` when `n` fits
      16-bit two's complement. */
  lemma SignedOfUnsigned(b: seq<char>, n: int)
    requires IsBits(b) && |b| == 16 && BitsValue(b) == Unsigned(n, 16)
    requires -(Pow2(15) as int) <= n < Pow2(15)
    ensures SignedValue(b) == n
  {
    BinSignedRoundTrip(n, 16);
    BitsRoundTrip(b);
  }

  /** The extension words of an instruction in pass 2: `argument` is the
      address of the last word emitted so far, and each operand's word is
      made relative to the address after it. */
  function ExtWords(ops: seq<Operand>, argument: int): (r: Result<seq<seq<char>>>)
    ensures r.Ok? ==> forall i :: 0 <= i < |r.value| ==> |r.value[i]| == 16 && IsBits(r.value[i])
    decreases |ops|
  {
    if ops == [] then Ok([])
    else
      match ExtensionWord(ops[0], argument + 2)
      case Err(e) => Err(e)
      case Ok(None) => ExtWords(ops[1..], argument)
      case Ok(Some(w)) =>
        match ExtWords(ops[1..], argument + 2)
        case Err(e) => Err(e)
        case Ok(rest) => Ok([w] + rest)
  }

  /** The extension words of an instruction in pass 1, where every operand
      is made relative to address 0. */
  function PlaceholderWords(ops: seq<Operand>): (r: Result<seq<seq<char>>>)
    ensures r.Ok? ==> forall i :: 0 <= i < |r.value| ==> |r.value[i]| == 16 && IsBits(r.value[i])
    decreases |ops|
  {
    if ops == [] then Ok([])
    else
      match ExtensionWord(ops[0], 0)
      case Err(e) => Err(e)
      case Ok(None) => PlaceholderWords(ops[1..])
      case Ok(Some(w)) =>
        match PlaceholderWords(ops[1..])
        case Err(e) => Err(e)
        case Ok(rest) => Ok([w] + rest)
  }

  /** The number of operands that take a word. */
  function WordCount(ops: seq<Operand>): nat
  {
    if ops == [] then 0 else (if NeedsWord(ops[0]) then 1 else 0) + WordCount(ops[1..])
  }

  lemma {:induction false} ExtWordsCount(ops: seq<Operand>, argument: int)
    requires ExtWords(ops, argument).Ok?
    ensures |ExtWords(ops, argument).value| == WordCount(ops)
    decreases |ops|
  {
    if ops != [] {
      ExtensionWordNeeds(ops[0], argument + 2);
      if NeedsWord(ops[0]) {
        ExtWordsCount(ops[1..], argument + 2);
      } else {
        ExtWordsCount(ops[1..], argument);
      }
    }
  }

  lemma {:induction false} PlaceholderWordsCount(ops: seq<Operand>)
    requires PlaceholderWords(ops).Ok?
    ensures |PlaceholderWords(ops).value| == WordCount(ops)
    decreases |ops|
  {
    if ops != [] {
      ExtensionWordNeeds(ops[0], 0);
      PlaceholderWordsCount(ops[1..]);
    }
  }

  // ---------------------------------------------------------------------
  // code_command
  // ---------------------------------------------------------------------

  /** The address of the label named by the last argument. */
  function TargetAddress(args: seq<seq<char>>, syms: Symbols): (r: Result<int>)
    ensures r.Ok? <==> args != [] && args[|args| - 1] in syms.labels
    ensures r.Ok? ==> r.value == syms.labels[args[|args| - 1]]
  {
    if args == [] then Err(MissingArgument)
    else if args[|args| - 1] !in syms.labels then Err(UndefinedLabel(args[|args| - 1]))
    else Ok(syms.labels[args[|args| - 1]])
  }

  /** The `sob` field: the word count back from the next instruction to the
      label, unsigned in six bits. */
  function SobOffset(pc: int, target: int): (r: Result<seq<char>>)
    ensures r.Ok? ==> |r.value| == 6 && IsBits(r.value)
    ensures r.Ok? <==> 0 <= (pc + 2 - target) / 2 < Pow2(6)
    ensures r.Ok? ==> BitsValue(r.value) == (pc + 2 - target) / 2
  {
    FormatBits((pc + 2 - target) / 2, 6)
  }

  /** The branch field: the word count from the next instruction to the
      label, in 8-bit two's complement. */
  function BranchOffset(pc: int, target: int): (r: Result<seq<char>>)
    ensures r.Ok? ==> |r.value| == 8 && IsBits(r.value)
    ensures r.Ok? <==> -(Pow2(7) as int) <= (target - (pc + 2)) / 2 < Pow2(7)
    ensures r.Ok? ==> SignedValue(r.value) == (target - (pc + 2)) / 2
  {
    var n := (target - (pc + 2)) / 2;
    if -(Pow2(7) as int) <= n < Pow2(7) then BinSignedRoundTrip(n, 8); Ok(Bin(n, 8))
    else Err(OutOfRange(n))
  }

  /** The fields as the source writes them: `bin` of the offset at the
      field's width, which also accepts values that only fit unsigned. */
  function SobOffsetAsWritten(pc: int, target: int): (r: Result<seq<char>>)
    ensures r.Ok? <==> -32 <= (pc + 2 - target) / 2 < 64
    ensures r.Ok? ==> |r.value| == 6 && IsBits(r.value) && BitsValue(r.value) == Unsigned((pc + 2 - target) / 2, 6)
  {
    assert Pow2(6) == 64;
    BinField((pc + 2 - target) / 2, 6)
  }

  function BranchOffsetAsWritten(pc: int, target: int): (r: Result<seq<char>>)
    ensures r.Ok? <==> -128 <= (target - (pc + 2)) / 2 < 256
    ensures r.Ok? ==> |r.value| == 8 && IsBits(r.value) && BitsValue(r.value) == Unsigned((target - (pc + 2)) / 2, 8)
  {
    assert Pow2(8) == 256;
    BinField((target - (pc + 2)) / 2, 8)
  }

  /** A forward branch of 128 words is accepted and encoded as a backward
      branch of 128 words. */
  lemma BranchOffsetOverflows()
    ensures BranchOffsetAsWritten(0, 258).Ok?
    ensures SignedValue(BranchOffsetAsWritten(0, 258).value) == -128
    ensures BranchOffset(0, 258).Err?
  {
    assert Pow2(8) == 256 && Pow2(7) == 128;
    var b := BranchOffsetAsWritten(0, 258).value;
    assert BitsValue(b) == 128;
    assert b == [b[0]] + b[1..];
    BitsValueSplit([b[0]], b[1..]);
    assert BitsValue([b[0]]) == BitValue(b[0]);
    assert b[0] == '1';
  }

  /** A `sob` whose label lies ahead is accepted and encoded as a large
      backward count. */
  lemma SobOffsetOverflows()
    ensures SobOffsetAsWritten(0, 4).Ok?
    ensures BitsValue(SobOffsetAsWritten(0, 4).value) == 63
    ensures SobOffset(0, 4).Err?
  {
    assert Pow2(6) == 64;
  }

  /** Where the corrected fields accept an offset, the source's `bin`
      writes the same bits; the only offsets it accepts beyond them are a
      `sob` count of -32..-1 and a forward branch of 128..255 words. */
  lemma CorrectedOffsetsAgree(pc: int, t: int)
    ensures SobOffset(pc, t).Ok? ==> SobOffsetAsWritten(pc, t) == SobOffset(pc, t)
    ensures BranchOffset(pc, t).Ok? ==> BranchOffsetAsWritten(pc, t) == BranchOffset(pc, t)
    ensures SobOffsetAsWritten(pc, t).Ok? && SobOffset(pc, t).Err? ==> -32 <= (pc + 2 - t) / 2 < 0
    ensures BranchOffsetAsWritten(pc, t).Ok? && BranchOffset(pc, t).Err? ==> 128 <= (t - (pc + 2)) / 2 < 256
  {
    assert Pow2(6) == 64 && Pow2(7) == 128 && Pow2(8) == 256;
  }

  /** The register field: the low three bits of the first operand's field. */
  function RField(ops: seq<Operand>): (r: Result<seq<char>>)
    ensures r.Ok? ==> |r.value| == 3 && IsBits(r.value)
  {
    if ops == [] then Err(MissingArgument)
    else
      match CodeArg(ops[0])
      case Err(e) => Err(e)
      case Ok(f) => Ok(f[3..])
  }

  /** The field of operand `k` of `ops`. */
  function OperandField(ops: seq<Operand>, k: int): (r: Result<seq<char>>)
    ensures r.Ok? ==> |r.value| == 6 && IsBits(r.value)
  {
    if 0 <= k < |ops| then CodeArg(ops[k]) else Err(MissingArgument)
  }

  /** What `code_command` returns: the instruction word and the operand
      records after resolution (with the `jsr` displacement appended). */
  datatype Coded = Coded(word: seq<char>, ops: seq<Operand>)

  /** `code_command`. In pass 1 (`precompile`) the displacements are zero
      placeholders of the same width and names stay unresolved. */
  function CodeCommand(name: seq<char>, args: seq<seq<char>>, syms: Symbols, pc: int, precompile: bool): (r: Result<Coded>)
    ensures name !in Commands ==> r == Err(UnknownOpcode(name))
    ensures r.Ok? ==> (name in Commands && |r.value.word| == 16 && IsBits(r.value.word) &&
      r.value.word[..|Commands[name].opcode|] == Commands[name].opcode)
    ensures r.Ok? ==> |r.value.ops| == |args| + (if Commands[name].printShift then 1 else 0)
    ensures r.Ok? ==> (RecognizeArgs(args).Ok? && ResolveAll(RecognizeArgs(args).value, syms, precompile).Ok? &&
      r.value.ops[..|args|] == ResolveAll(RecognizeArgs(args).value, syms, precompile).value &&
      Fields(Commands[name], r.value.ops[..|args|], args, syms, pc, precompile) == Ok(r.value.word[|Commands[name].opcode|..]))
    ensures r.Ok? ==> ShiftOperand(Commands[name], args, syms, pc, precompile) == Ok(r.value.ops[|args|..])
  {
    if name !in Commands then Err(UnknownOpcode(name))
    else
      var c := Commands[name];
      CommandsFillAWord(name);
      var parsed :- RecognizeArgs(args);
      var ops :- ResolveAll(parsed, syms, precompile);
      var f :- Fields(c, ops, args, syms, pc, precompile);
      var extra :- ShiftOperand(c, args, syms, pc, precompile);
      assert (c.opcode + f)[..|c.opcode|] == c.opcode;
      assert (c.opcode + f)[|c.opcode|..] == f;
      assert (ops + extra)[..|args|] == ops && (ops + extra)[|args|..] == extra;
      Ok(Coded(c.opcode + f, ops + extra))
  }

  /** The operand fields r ‖ ss ‖ dd ‖ nn ‖ xx a command declares: r from
      the first operand, dd from the last, ss from operand `has_r`, nn and
      xx from the label named by the last argument. */
  function Fields(c: Command, ops: seq<Operand>, args: seq<seq<char>>, syms: Symbols, pc: int, precompile: bool): (r: Result<seq<char>>)
    ensures r.Ok? ==> |r.value| == FieldWidth(c) - |c.opcode| && IsBits(r.value)
  {
    Join(if c.hasR then RField(ops) else Ok([]),
      NnField(c, args, syms, pc, precompile),
      if c.hasDd then OperandField(ops, |ops| - 1) else Ok([]),
      if c.hasSs then OperandField(ops, if c.hasR then 1 else 0) else Ok([]),
      XxField(c, args, syms, pc, precompile))
  }

  /** The fields r ‖ ss ‖ dd ‖ nn ‖ xx, failing with the first error in the
      order the source computes them: r, nn, dd, ss, xx. */
  function Join(rr: Result<seq<char>>, nn: Result<seq<char>>, dd: Result<seq<char>>, ss: Result<seq<char>>,
    xx: Result<seq<char>>): (r: Result<seq<char>>)
    ensures r.Ok? <==> rr.Ok? && nn.Ok? && dd.Ok? && ss.Ok? && xx.Ok?
    ensures r.Ok? ==> |r.value| == |rr.value| + |ss.value| + |dd.value| + |nn.value| + |xx.value|
    ensures r.Ok? && IsBits(rr.value) && IsBits(ss.value) && IsBits(dd.value) && IsBits(nn.value) && IsBits(xx.value) ==>
      IsBits(r.value)
  {
    if rr.Err? then Err(rr.error)
    else if nn.Err? then Err(nn.error)
    else if dd.Err? then Err(dd.error)
    else if ss.Err? then Err(ss.error)
    else if xx.Err? then Err(xx.error)
    else
      var a, b, d, e, f := rr.value, ss.value, dd.value, nn.value, xx.value;
      assert IsBits(a) && IsBits(b) && IsBits(d) && IsBits(e) && IsBits(f) ==> IsBits(a + b + d + e + f) by {
        if IsBits(a) && IsBits(b) && IsBits(d) && IsBits(e) && IsBits(f) {
          ConcatBits(a, b, d, e, f);
        }
      }
      Ok(a + b + d + e + f)
  }

  // Where each field sits in the bits `Fields` returns.

  lemma FieldR(c: Command, ops: seq<Operand>, args: seq<seq<char>>, syms: Symbols, pc: int, precompile: bool)
    requires Fields(c, ops, args, syms, pc, precompile).Ok? && c.hasR
    ensures RField(ops) == Ok(Fields(c, ops, args, syms, pc, precompile).value[..3])
  {
    var rr := if c.hasR then RField(ops) else Ok([]);
    var nn := NnField(c, args, syms, pc, precompile);
    var dd := if c.hasDd then OperandField(ops, |ops| - 1) else Ok([]);
    var ss := if c.hasSs then OperandField(ops, if c.hasR then 1 else 0) else Ok([]);
    var xx := XxField(c, args, syms, pc, precompile);
    var f := Fields(c, ops, args, syms, pc, precompile);
    var j := Join(rr, nn, dd, ss, xx);
    assert f == j;
    assert |rr.value| == 3;
    JoinR(rr, nn, dd, ss, xx);
    assert j.value[..3] == rr.value;
    assert rr == Ok(rr.value);
  }

  lemma FieldSs(c: Command, ops: seq<Operand>, args: seq<seq<char>>, syms: Symbols, pc: int, precompile: bool)
    requires Fields(c, ops, args, syms, pc, precompile).Ok? && c.hasSs
    ensures OperandField(ops, if c.hasR then 1 else 0) == Ok(Fields(c, ops, args, syms, pc, precompile).value[RWidth(c)..RWidth(c) + 6])
  {
    var rr := if c.hasR then RField(ops) else Ok([]);
    var nn := NnField(c, args, syms, pc, precompile);
    var dd := if c.hasDd then OperandField(ops, |ops| - 1) else Ok([]);
    var ss := if c.hasSs then OperandField(ops, if c.hasR then 1 else 0) else Ok([]);
    var xx := XxField(c, args, syms, pc, precompile);
    var f := Fields(c, ops, args, syms, pc, precompile);
    var j := Join(rr, nn, dd, ss, xx);
    assert f == j;
    assert |rr.value| == RWidth(c) && |ss.value| == 6;
    JoinSs(rr, nn, dd, ss, xx);
    assert j.value[RWidth(c)..RWidth(c) + 6] == ss.value;
    assert ss == Ok(ss.value);
  }

  lemma FieldDd(c: Command, ops: seq<Operand>, args: seq<seq<char>>, syms: Symbols, pc: int, precompile: bool)
    requires Fields(c, ops, args, syms, pc, precompile).Ok? && c.hasDd
    ensures OperandField(ops, |ops| - 1) == Ok(Fields(c, ops, args, syms, pc, precompile).value[RWidth(c) + SsWidth(c)..RWidth(c) + SsWidth(c) + 6])
  {
    var rr := if c.hasR then RField(ops) else Ok([]);
    var nn := NnField(c, args, syms, pc, precompile);
    var dd := if c.hasDd then OperandField(ops, |ops| - 1) else Ok([]);
    var ss := if c.hasSs then OperandField(ops, if c.hasR then 1 else 0) else Ok([]);
    var xx := XxField(c, args, syms, pc, precompile);
    var f := Fields(c, ops, args, syms, pc, precompile);
    var j := Join(rr, nn, dd, ss, xx);
    assert f == j;
    assert |rr.value| == RWidth(c) && |ss.value| == SsWidth(c) && |dd.value| == 6;
    JoinDd(rr, nn, dd, ss, xx);
    assert j.value[RWidth(c) + SsWidth(c)..RWidth(c) + SsWidth(c) + 6] == dd.value;
    assert dd == Ok(dd.value);
  }

  lemma FieldNn(c: Command, ops: seq<Operand>, args: seq<seq<char>>, syms: Symbols, pc: int, precompile: bool)
    requires Fields(c, ops, args, syms, pc, precompile).Ok? && c.hasNn && !c.hasXx
    ensures NnField(c, args, syms, pc, precompile) == Ok(Fields(c, ops, args, syms, pc, precompile).value[FieldWidth(c) - |c.opcode| - 6..])
  {
    var rr := if c.hasR then RField(ops) else Ok([]);
    var nn := NnField(c, args, syms, pc, precompile);
    var dd := if c.hasDd then OperandField(ops, |ops| - 1) else Ok([]);
    var ss := if c.hasSs then OperandField(ops, if c.hasR then 1 else 0) else Ok([]);
    var xx := XxField(c, args, syms, pc, precompile);
    var f := Fields(c, ops, args, syms, pc, precompile);
    var j := Join(rr, nn, dd, ss, xx);
    assert f == j;
    assert xx == Ok([]) && |nn.value| == 6;
    JoinNn(rr, nn, dd, ss, xx);
    assert |j.value| == FieldWidth(c) - |c.opcode|;
    assert j.value[FieldWidth(c) - |c.opcode| - 6..] == nn.value;
    assert nn == Ok(nn.value);
  }

  lemma FieldXx(c: Command, ops: seq<Operand>, args: seq<seq<char>>, syms: Symbols, pc: int, precompile: bool)
    requires Fields(c, ops, args, syms, pc, precompile).Ok? && c.hasXx
    ensures XxField(c, args, syms, pc, precompile) == Ok(Fields(c, ops, args, syms, pc, precompile).value[FieldWidth(c) - |c.opcode| - 8..])
  {
    var rr := if c.hasR then RField(ops) else Ok([]);
    var nn := NnField(c, args, syms, pc, precompile);
    var dd := if c.hasDd then OperandField(ops, |ops| - 1) else Ok([]);
    var ss := if c.hasSs then OperandField(ops, if c.hasR then 1 else 0) else Ok([]);
    var xx := XxField(c, args, syms, pc, precompile);
    var f := Fields(c, ops, args, syms, pc, precompile);
    var j := Join(rr, nn, dd, ss, xx);
    assert f == j;
    assert |xx.value| == 8;
    JoinXx(rr, nn, dd, ss, xx);
    assert |j.value| == FieldWidth(c) - |c.opcode|;
    assert j.value[FieldWidth(c) - |c.opcode| - 8..] == xx.value;
    assert xx == Ok(xx.value);
  }

  // Each part sits at its offset in the joined fields.

  lemma JoinR(rr: Result<seq<char>>, nn: Result<seq<char>>, dd: Result<seq<char>>, ss: Result<seq<char>>,
    xx: Result<seq<char>>)
    requires Join(rr, nn, dd, ss, xx).Ok?
    ensures Join(rr, nn, dd, ss, xx).value[..|rr.value|] == rr.value
  {
    FieldLayout(rr.value, ss.value, dd.value, nn.value, xx.value);
  }

  lemma JoinSs(rr: Result<seq<char>>, nn: Result<seq<char>>, dd: Result<seq<char>>, ss: Result<seq<char>>,
    xx: Result<seq<char>>)
    requires Join(rr, nn, dd, ss, xx).Ok?
    ensures Join(rr, nn, dd, ss, xx).value[|rr.value|..|rr.value| + |ss.value|] == ss.value
  {
    FieldLayout(rr.value, ss.value, dd.value, nn.value, xx.value);
  }

  lemma JoinDd(rr: Result<seq<char>>, nn: Result<seq<char>>, dd: Result<seq<char>>, ss: Result<seq<char>>,
    xx: Result<seq<char>>)
    requires Join(rr, nn, dd, ss, xx).Ok?
    ensures var k := |rr.value| + |ss.value|; Join(rr, nn, dd, ss, xx).value[k..k + |dd.value|] == dd.value
  {
    FieldLayout(rr.value, ss.value, dd.value, nn.value, xx.value);
  }

  lemma JoinNn(rr: Result<seq<char>>, nn: Result<seq<char>>, dd: Result<seq<char>>, ss: Result<seq<char>>,
    xx: Result<seq<char>>)
    requires Join(rr, nn, dd, ss, xx).Ok? && xx.value == []
    ensures var r := Join(rr, nn, dd, ss, xx).value; r[|r| - |nn.value|..] == nn.value
  {
    FieldLayout(rr.value, ss.value, dd.value, nn.value, xx.value);
  }

  lemma JoinXx(rr: Result<seq<char>>, nn: Result<seq<char>>, dd: Result<seq<char>>, ss: Result<seq<char>>,
    xx: Result<seq<char>>)
    requires Join(rr, nn, dd, ss, xx).Ok?
    ensures var r := Join(rr, nn, dd, ss, xx).value; r[|r| - |xx.value|..] == xx.value
  {
    FieldLayout(rr.value, ss.value, dd.value, nn.value, xx.value);
  }

  lemma FieldLayout(a: seq<char>, b: seq<char>, c: seq<char>, d: seq<char>, e: seq<char>)
    ensures var s := a + b + c + d + e;
      s[..|a|] == a && s[|a|..|a| + |b|] == b && s[|a| + |b|..|a| + |b| + |c|] == c &&
      s[|s| - |e|..] == e && (e == [] ==> s[|s| - |d|..] == d)
  {
    var s := a + b + c + d + e;
    assert s == (a + b + c + d) + e;
    assert s == a + (b + c + d + e);
    assert b + c + d + e == b + (c + d + e);
    assert c + d + e == c + (d + e);
  }

  function RWidth(c: Command): nat { if c.hasR then 3 else 0 }
  function SsWidth(c: Command): nat { if c.hasSs then 6 else 0 }

  /** The `sob` count field, or a zero placeholder in pass 1. Pass 2
      refuses a count outside 0..63, which `bin` would write for a label
      ahead (see `SobOffset`). */
  function NnField(c: Command, args: seq<seq<char>>, syms: Symbols, pc: int, precompile: bool): (r: Result<seq<char>>)
    ensures r.Ok? ==> |r.value| == (if c.hasNn then 6 else 0) && IsBits(r.value)
    ensures c.hasNn && precompile ==> r == Ok(Zeros(6))
    ensures c.hasNn && !precompile ==>
      (r.Ok? <==> TargetAddress(args, syms).Ok? && 0 <= (pc + 2 - TargetAddress(args, syms).value) / 2 < Pow2(6))
    ensures c.hasNn && !precompile && r.Ok? ==> BitsValue(r.value) == (pc + 2 - TargetAddress(args, syms).value) / 2
  {
    if !c.hasNn then Ok([])
    else if precompile then Ok(Zeros(6))
    else
      var t :- TargetAddress(args, syms);
      SobOffset(pc, t)
  }

  /** The branch offset field, or a zero placeholder in pass 1. Pass 2
      refuses an offset outside -128..127, which `bin` would write for a
      forward branch of 128 words or more (see `BranchOffset`). */
  function XxField(c: Command, args: seq<seq<char>>, syms: Symbols, pc: int, precompile: bool): (r: Result<seq<char>>)
    ensures r.Ok? ==> |r.value| == (if c.hasXx then 8 else 0) && IsBits(r.value)
    ensures c.hasXx && precompile ==> r == Ok(Zeros(8))
    ensures c.hasXx && !precompile ==>
      (r.Ok? <==> TargetAddress(args, syms).Ok? && -(Pow2(7) as int) <= (TargetAddress(args, syms).value - (pc + 2)) / 2 < Pow2(7))
    ensures c.hasXx && !precompile && r.Ok? ==> SignedValue(r.value) == (TargetAddress(args, syms).value - (pc + 2)) / 2
  {
    if !c.hasXx then Ok([])
    else if precompile then Ok(Zeros(8))
    else
      var t :- TargetAddress(args, syms);
      BranchOffset(pc, t)
  }

  lemma ConcatBits(a: seq<char>, b: seq<char>, c: seq<char>, d: seq<char>, e: seq<char>)
    requires IsBits(a) && IsBits(b) && IsBits(c) && IsBits(d) && IsBits(e)
    ensures IsBits(a + b + c + d + e)
  {
    var s := a + b + c + d + e;
    forall i | 0 <= i < |s| ensures IsBit(s[i]) {
      if i < |a| { assert s[i] == a[i]; }
      else if i < |a| + |b| { assert s[i] == b[i - |a|]; }
      else if i < |a| + |b| + |c| { assert s[i] == c[i - |a| - |b|]; }
      else if i < |a| + |b| + |c| + |d| { assert s[i] == d[i - |a| - |b| - |c|]; }
      else { assert s[i] == e[i - |a| - |b| - |c| - |d|]; }
    }
  }

  /** The immediate operand holding the distance from the address after a
      two-word instruction at `pc` to `t`, as `oct(…, 6)` writes it. */
  function Displacement(t: int, pc: int): Operand
  {
    Operand(2, Const(Oct(t - (pc + 4), 6)))
  }

  /** The `jsr` displacement: a mode-2 constant holding the label's
      distance from the address after the two-word instruction, or the
      constant 0 in pass 1. */
  function ShiftOperand(c: Command, args: seq<seq<char>>, syms: Symbols, pc: int, precompile: bool): (r: Result<seq<Operand>>)
    ensures r.Ok? ==> |r.value| == (if c.printShift then 1 else 0)
    ensures r.Ok? && c.printShift && precompile ==> r.value == [Operand(2, Const("0"))]
    ensures c.printShift && !precompile ==> (r.Ok? <==> TargetAddress(args, syms).Ok?)
    ensures r.Ok? && c.printShift && !precompile ==>
      r.value == [Displacement(TargetAddress(args, syms).value, pc)]
  {
    if !c.printShift then Ok([])
    else if precompile then Ok([Operand(2, Const("0"))])
    else
      var t := TargetAddress(args, syms);
      if t.Err? then Err(t.error) else Ok([Displacement(t.value, pc)])
  }

  // ---------------------------------------------------------------------
  // code_pseudo_command
  // ---------------------------------------------------------------------

  /** One `.WORD` (width 16) or `.BYTE` (width 8) argument: an octal
      numeral in `bin`'s range. A lone quote stands for its own character
      code; any other quoted argument, and a number with a decimal point,
      is rejected by `ord()` or `int()`. */
  function DataItem(arg: seq<char>, width: nat): (r: Result<seq<char>>)
    ensures r.Ok? ==> |r.value| == width && IsBits(r.value)
  {
    if arg == [] then Err(MissingArgument)
    else if arg[|arg| - 1] == '.' then Err(BadLiteral(arg))
    else
      var text :- if arg[0] != '\'' then Ok(arg) else if |arg| == 1 then Ok(OctText(arg[0] as int)) else Err(BadLiteral(arg));
      var n :- ParseInt(text, 8);
      BinField(n, width)
  }

  /** A data word written as an octal numeral holds that number. */
  lemma DataItemValue(n: int, k: int, width: nat)
    requires FitsBin(n, width)
    ensures DataItem(Oct(n, k), width) == Ok(Bin(n, width))
  {
    OctParses(n, k);
    OctShape(n, k);
    DataItemOf(Oct(n, k), n, width);
  }

  lemma DataItemOf(arg: seq<char>, n: int, width: nat)
    requires arg != [] && arg[0] != '\'' && arg[|arg| - 1] != '.'
    requires ParseInt(arg, 8) == Ok(n) && FitsBin(n, width)
    ensures DataItem(arg, width) == Ok(Bin(n, width))
  {
  }

  /** An octal numeral is not empty, does not start with a quote and does
      not end with a decimal point. */
  lemma OctShape(n: int, k: int)
    ensures var t := Oct(n, k); t != [] && t[0] != '\'' && t[|t| - 1] != '.'
  {
    var t := Oct(n, k);
    var m, w := if n >= 0 then n else -n, if n >= 0 then k else k - 1;
    ZeroPadValue(m, 8, w);
    var z := ZeroPad(Digits(m, 8), w);
    assert t == if n >= 0 then z else ['-'] + z;
    assert z != [] by {
      DigitsRoundTrip(m, 8);
    }
    assert t[|t| - 1] == z[|z| - 1];
    assert CharValue(z[|z| - 1]) < 8;
    assert t[0] == '-' || t[0] == z[0];
    assert CharValue(z[0]) < 8;
  }

  /** A lone quote is the character code 39. */
  lemma QuoteItem(width: nat)
    requires width >= 7
    ensures DataItem("'", width).Ok? && BitsValue(DataItem("'", width).value) == 39
  {
    assert Digits(39, 8) == Digits(4, 8) + [DigitChar(7)];
    assert OctText(39) == "47";
    assert DigitsValue("4", 8) == 4;
    assert DigitsValue("47", 8) == 39;
    assert ParseInt("47", 8) == Ok(39);
    assert Pow2(7) == 128;
    Pow2Grows(7, width);
    assert FitsBin(39, width);
  }

  lemma {:induction false} Pow2Grows(a: nat, b: nat)
    requires a <= b
    ensures Pow2(a) <= Pow2(b)
    decreases b
  {
    if a < b {
      Pow2Grows(a, b - 1);
    }
  }

  /** `.WORD`/`.BYTE`: one item per argument, in order. */
  function DataWords(args: seq<seq<char>>, width: nat): (r: Result<seq<seq<char>>>)
    ensures r.Ok? ==> (|r.value| == |args| &&
      forall i :: 0 <= i < |args| ==> DataItem(args[i], width) == Ok(r.value[i]))
    ensures r.Err? <==> exists i :: 0 <= i < |args| && DataItem(args[i], width).Err?
  {
    Collect(a => DataItem(a, width), args)
  }

  lemma DataWordsStep(args: seq<seq<char>>, width: nat, k: nat, done: seq<seq<char>>)
    requires k < |args| && DataWords(args[..k], width) == Ok(done) && DataItem(args[k], width).Ok?
    ensures DataWords(args[..k + 1], width) == Ok(done + [DataItem(args[k], width).value])
  {
    CollectStep(a => DataItem(a, width), args, k, done);
  }

  lemma DataWordsStops(args: seq<seq<char>>, width: nat, k: nat, done: seq<seq<char>>)
    requires k < |args| && DataWords(args[..k], width) == Ok(done) && DataItem(args[k], width).Err?
    ensures DataWords(args, width) == Err(DataItem(args[k], width).error)
  {
    CollectStops(a => DataItem(a, width), args, k, done);
  }

  /** One character of `.ASCII`: a byte holding its code, or an error when
      the code does not fit a byte. */
  function CharByte(c: char): (r: Result<seq<char>>)
    ensures r.Ok? <==> (c as int) < 256
    ensures r.Ok? ==> |r.value| == 8 && IsBits(r.value) && BitsValue(r.value) == c as int
  {
    assert Pow2(8) == 256;
    if (c as int) < 256 then Ok(NatBits(c as int, 8)) else Err(OutOfRange(c as int))
  }

  /** `.ASCII`: one byte per character, holding its code; a code that does
      not fit a byte is an error. */
  function CharBytes(s: seq<char>): (r: Result<seq<seq<char>>>)
    ensures r.Ok? <==> forall i :: 0 <= i < |s| ==> (s[i] as int) < 256
    ensures r.Ok? ==> (|r.value| == |s| &&
      forall i :: 0 <= i < |s| ==> |r.value[i]| == 8 && IsBits(r.value[i]) && BitsValue(r.value[i]) == s[i] as int)
  {
    var r := Collect(CharByte, s);
    assert r.Ok? ==> forall i :: 0 <= i < |s| ==> CharByte(s[i]) == Ok(r.value[i]);
    r
  }

  lemma CharBytesStep(s: seq<char>, k: nat, done: seq<seq<char>>)
    requires k < |s| && CharBytes(s[..k]) == Ok(done) && CharByte(s[k]).Ok?
    ensures CharBytes(s[..k + 1]) == Ok(done + [CharByte(s[k]).value])
  {
    CollectStep(CharByte, s, k, done);
  }

  lemma CharBytesStops(s: seq<char>, k: nat, done: seq<seq<char>>)
    requires k < |s| && CharBytes(s[..k]) == Ok(done) && CharByte(s[k]).Err?
    ensures CharBytes(s) == Err(CharByte(s[k]).error)
  {
    CollectStops(CharByte, s, k, done);
  }

  /** What a line contributes: its items (16-bit words and 8-bit bytes, in
      order) and, for `.=`, the new location counter. */
  datatype Emitted = Emitted(items: seq<seq<char>>, origin: Option<int>)

  predicate AllItems(items: seq<seq<char>>)
  {
    forall i :: 0 <= i < |items| ==> IsItem(items[i])
  }

  lemma AllItemsAppend(a: seq<seq<char>>, b: seq<seq<char>>)
    requires AllItems(a) && AllItems(b)
    ensures AllItems(a + b)
  {
    assert forall i :: 0 <= i < |a + b| ==> (a + b)[i] == if i < |a| then a[i] else b[i - |a|];
  }

  /** The directives `code_pseudo_command` handles. */
  predicate IsDirective(name: seq<char>)
  {
    name == ".=" || name == ".WORD" || name == ".BYTE" || name == ".ASCII" || name == ".ASCIZ"
  }

  /** `code_pseudo_command`. */
  function PseudoWords(name: seq<char>, args: seq<seq<char>>, text: seq<char>): (r: Result<Emitted>)
    ensures r.Ok? ==> AllItems(r.value.items) && (r.value.origin.Some? <==> name == ".=")
    ensures !IsDirective(name) ==> r == Err(UnknownDirective(name))
  {
    if name == ".=" then Origin(args)
    else if name == ".WORD" then DataEmitted(args, 16)
    else if name == ".BYTE" then DataEmitted(args, 8)
    else if name == ".ASCII" || name == ".ASCIZ" then AsciiEmitted(name, text)
    else Err(UnknownDirective(name))
  }

  /** `.=`: the first argument, read in octal, is the new location counter. */
  function Origin(args: seq<seq<char>>): (r: Result<Emitted>)
    ensures r.Ok? <==> args != [] && ParseInt(args[0], 8).Ok?
    ensures r.Ok? ==> r.value == Emitted([], Some(ParseInt(args[0], 8).value))
  {
    if args == [] then Err(MissingArgument)
    else
      var a := ParseInt(args[0], 8);
      if a.Err? then Err(a.error) else Ok(Emitted([], Some(a.value)))
  }

  /** `.WORD` and `.BYTE`: one item of the directive's width per argument,
      in order, failing when any argument fails. */
  function DataEmitted(args: seq<seq<char>>, width: nat): (r: Result<Emitted>)
    requires width == 16 || width == 8
    ensures r.Ok? <==> forall i :: 0 <= i < |args| ==> DataItem(args[i], width).Ok?
    ensures r.Ok? ==> (r.value.origin == None && AllItems(r.value.items) && |r.value.items| == |args| &&
      forall i :: 0 <= i < |args| ==> DataItem(args[i], width) == Ok(r.value.items[i]))
  {
    var ws := DataWords(args, width);
    if ws.Err? then Err(ws.error)
    else
      assert AllItems(ws.value) by {
        forall i | 0 <= i < |ws.value| ensures IsItem(ws.value[i]) {
          assert DataItem(args[i], width) == Ok(ws.value[i]);
        }
      }
      Ok(Emitted(ws.value, None))
  }

  /** `.ASCII` and `.ASCIZ`: the bytes of the delimited text, and for
      `.ASCIZ` a zero byte after them. */
  function AsciiEmitted(name: seq<char>, text: seq<char>): (r: Result<Emitted>)
    ensures r.Ok? <==> AsciiText(name, text).Ok? && AsciiItems(AsciiText(name, text).value, name == ".ASCIZ").Ok?
    ensures r.Ok? ==> r.value == Emitted(AsciiItems(AsciiText(name, text).value, name == ".ASCIZ").value, None)
  {
    var s := AsciiText(name, text);
    if s.Err? then Err(s.error)
    else
      var items := AsciiItems(s.value, name == ".ASCIZ");
      if items.Err? then Err(items.error) else Ok(Emitted(items.value, None))
  }

  /** The bytes of a string's characters, and a zero byte after them when
      `zero`. */
  function AsciiItems(s: seq<char>, zero: bool): (r: Result<seq<seq<char>>>)
    ensures r.Ok? <==> CharBytes(s).Ok?
    ensures r.Ok? ==> (AllItems(r.value) &&
      r.value == CharBytes(s).value + (if zero then [Zeros(8)] else []))
  {
    var bs := CharBytes(s);
    if bs.Err? then Err(bs.error)
    else
      var tail := if zero then [Zeros(8)] else [];
      assert AllItems(bs.value) && AllItems(tail);
      AllItemsAppend(bs.value, tail);
      Ok(bs.value + tail)
  }

  /** An `.ASCIZ` string is its character codes followed by one zero byte. */
  lemma AscizBytes(text: seq<char>)
    requires PseudoWords(".ASCIZ", [], text).Ok?
    ensures var items := PseudoWords(".ASCIZ", [], text).value.items; var s := AsciiText(".ASCIZ", text).value;
      |items| == |s| + 1 && BitsValue(items[|s|]) == 0 &&
      forall i :: 0 <= i < |s| ==> BitsValue(items[i]) == s[i] as int
  {
  }

  // ---------------------------------------------------------------------
  // What an encoded instruction means
  // ---------------------------------------------------------------------


  /** A pass-2 branch to a label at an even distance: the offset in the
      low byte, counted in words from the next instruction, lands on the
      label. */
  lemma BranchTarget(name: seq<char>, args: seq<seq<char>>, syms: Symbols, pc: int)
    requires name in Commands && Commands[name].hasXx
    requires CodeCommand(name, args, syms, pc, false).Ok?
    ensures TargetAddress(args, syms).Ok?
    ensures var w := CodeCommand(name, args, syms, pc, false).value.word; var t := TargetAddress(args, syms).value;
      (t - pc) % 2 == 0 ==> pc + 2 + 2 * SignedValue(w[8..]) == t
  {
    BranchCommand(name);
    var r := CodeCommand(name, args, syms, pc, false).value;
    BranchField(Commands[name], r.ops[..|args|], args, syms, pc, r.word);
    var t := TargetAddress(args, syms).value;
    var v := SignedValue(r.word[8..]);
    Lands(pc, t, v);
    assert (t - pc) % 2 == 0 ==> pc + 2 + 2 * v == t;
  }

  /** The commands with a branch offset field (`br`, `beq`, `bpl`) have
      no other field. */
  lemma BranchCommand(name: seq<char>)
    requires name in Commands && Commands[name].hasXx
    ensures |Commands[name].opcode| == 8 && FieldWidth(Commands[name]) == 16
  {
  }

  /** The branch field of a pass-2 word whose only field it is. */
  lemma BranchField(c: Command, ops: seq<Operand>, args: seq<seq<char>>, syms: Symbols, pc: int, w: seq<char>)
    requires |w| == 16 && Fields(c, ops, args, syms, pc, false) == Ok(w[8..])
    requires c.hasXx && |c.opcode| == 8 && FieldWidth(c) == 16
    ensures TargetAddress(args, syms).Ok? && SignedValue(w[8..]) == (TargetAddress(args, syms).value - (pc + 2)) / 2
  {
    var f := w[8..];
    FieldXx(c, ops, args, syms, pc, false);
    assert f[0..] == f;
    var x := XxField(c, args, syms, pc, false);
    assert x == Ok(f);
    var t := TargetAddress(args, syms);
    assert t.Ok? && x == BranchOffset(pc, t.value);
  }

  /** A branch from `pc` by the halved distance to an even-distance `t`
      lands on `t`. */
  lemma Lands(pc: int, t: int, v: int)
    requires v == (t - (pc + 2)) / 2
    ensures (t - pc) % 2 == 0 ==> pc + 2 + 2 * v == t
  {
    if (t - pc) % 2 == 0 {
      HalveEven(pc, t);
    }
  }

  /** A pass-2 `sob` (the one command with a count field): the three bits
      after the opcode hold the first operand's register. */
  lemma SobRegister(name: seq<char>, args: seq<seq<char>>, syms: Symbols, pc: int)
    requires name in Commands && Commands[name].hasNn
    requires CodeCommand(name, args, syms, pc, false).Ok?
    ensures var r := CodeCommand(name, args, syms, pc, false).value; var k := |Commands[name].opcode|;
      r.ops != [] && CodeArg(r.ops[0]).Ok? && k + 3 <= 16 && r.word[k..k + 3] == CodeArg(r.ops[0]).value[3..]
  {
    SobCommand(name);
    var r := CodeCommand(name, args, syms, pc, false).value;
    var ops := r.ops[..|args|];
    SobRegisterField(Commands[name], ops, args, syms, pc, r.word);
    assert ops[0] == r.ops[0];
  }

  /** A pass-2 `sob` to a label at an even distance: the low six bits count
      the words back from the next instruction to the label. */
  lemma SobTarget(name: seq<char>, args: seq<seq<char>>, syms: Symbols, pc: int)
    requires name in Commands && Commands[name].hasNn
    requires CodeCommand(name, args, syms, pc, false).Ok?
    ensures TargetAddress(args, syms).Ok?
    ensures var w := CodeCommand(name, args, syms, pc, false).value.word; var t := TargetAddress(args, syms).value;
      (t - pc) % 2 == 0 ==> pc + 2 - 2 * BitsValue(w[10..]) == t
  {
    SobCommand(name);
    var r := CodeCommand(name, args, syms, pc, false).value;
    SobCountField(Commands[name], r.ops[..|args|], args, syms, pc, r.word);
    var t := TargetAddress(args, syms).value;
    var v := BitsValue(r.word[10..]);
    LandsBack(pc, t, v);
    assert (t - pc) % 2 == 0 ==> pc + 2 - 2 * v == t;
  }

  /** The command with a count field (`sob`) also has a register field and
      no branch field. */
  lemma SobCommand(name: seq<char>)
    requires name in Commands && Commands[name].hasNn
    ensures Commands[name].hasR && !Commands[name].hasXx && |Commands[name].opcode| == 7 && FieldWidth(Commands[name]) == 16
  {
  }

  /** The register field of a pass-2 `sob` word. */
  lemma SobRegisterField(c: Command, ops: seq<Operand>, args: seq<seq<char>>, syms: Symbols, pc: int, w: seq<char>)
    requires |w| == 16 && Fields(c, ops, args, syms, pc, false) == Ok(w[7..])
    requires c.hasR && |c.opcode| == 7
    ensures ops != [] && CodeArg(ops[0]).Ok? && w[7..10] == CodeArg(ops[0]).value[3..]
  {
    var f := w[7..];
    FieldR(c, ops, args, syms, pc, false);
    assert w[7..10] == f[..3];
  }

  /** The count field of a pass-2 `sob` word. */
  lemma SobCountField(c: Command, ops: seq<Operand>, args: seq<seq<char>>, syms: Symbols, pc: int, w: seq<char>)
    requires |w| == 16 && Fields(c, ops, args, syms, pc, false) == Ok(w[7..])
    requires c.hasNn && !c.hasXx && |c.opcode| == 7 && FieldWidth(c) == 16
    ensures TargetAddress(args, syms).Ok? && BitsValue(w[10..]) == (pc + 2 - TargetAddress(args, syms).value) / 2
  {
    var f := w[7..];
    FieldNn(c, ops, args, syms, pc, false);
    assert f[FieldWidth(c) - |c.opcode| - 6..] == w[10..];
    var n := NnField(c, args, syms, pc, false);
    var t := TargetAddress(args, syms);
    assert t.Ok? && n == SobOffset(pc, t.value);
  }

  /** Counting back the halved distance from the address after `pc` to an
      even-distance `t` lands on `t`. */
  lemma LandsBack(pc: int, t: int, v: int)
    requires v == (pc + 2 - t) / 2
    ensures (t - pc) % 2 == 0 ==> pc + 2 - 2 * v == t
  {
    if (t - pc) % 2 == 0 {
      HalveEven(pc, t);
    }
  }

  lemma HalveEven(pc: int, t: int)
    requires (t - pc) % 2 == 0
    ensures 2 * ((pc + 2 - t) / 2) == pc + 2 - t && 2 * ((t - (pc + 2)) / 2) == t - (pc + 2)
  {
  }

  /** The displacement operand comes last. */
  lemma ShiftIsLast(name: seq<char>, args: seq<seq<char>>, syms: Symbols, pc: int)
    requires name in Commands && Commands[name].printShift
    requires CodeCommand(name, args, syms, pc, false).Ok?
    ensures var ops := CodeCommand(name, args, syms, pc, false).value.ops;
      TargetAddress(args, syms).Ok? && ops != [] &&
      ops[|ops| - 1] == Displacement(TargetAddress(args, syms).value, pc)
  {
    var ops := CodeCommand(name, args, syms, pc, false).value.ops;
    var sh := ShiftOperand(Commands[name], args, syms, pc, false);
    assert sh == Ok(ops[|args|..]);
    assert ops[|ops| - 1] == sh.value[0];
  }

  /** A pass-2 `jsr` (the one command with a displacement operand): the
      word of its last operand is the distance from the address after the
      instruction's first extension word to the label, in 16-bit two's
      complement (see `UnsignedWraps` for the address it reaches). */
  lemma JsrTarget(name: seq<char>, args: seq<seq<char>>, syms: Symbols, pc: int, counter: int)
    requires name in Commands && Commands[name].printShift
    requires CodeCommand(name, args, syms, pc, false).Ok?
    requires TargetAddress(args, syms).Ok? && -65536 < TargetAddress(args, syms).value - (pc + 4) < 65536
    ensures var ops := CodeCommand(name, args, syms, pc, false).value.ops; var e := ExtensionWord(ops[|ops| - 1], counter);
      e.Ok? && e.value.Some? && BitsValue(e.value.value) == Unsigned(TargetAddress(args, syms).value - (pc + 4), 16)
  {
    ShiftIsLast(name, args, syms, pc);
    Pow2Word();
    ConstantWord(2, TargetAddress(args, syms).value - (pc + 4), 6, counter);
  }

  /** Adding a 16-bit two's-complement word to an address is adding the
      number it stands for, modulo 2^16. */
  lemma UnsignedWraps(base: int, d: int)
    requires -65536 < d < 65536
    ensures (base + Unsigned(d, 16)) % 65536 == (base + d) % 65536
  {
    Pow2Word();
  }

  lemma Pow2Word()
    ensures Pow2(16) == 65536
  {
    assert Pow2(8) == 256;
    Pow2Sum(8, 8);
  }

  lemma {:induction false} Pow2Sum(a: nat, b: nat)
    ensures Pow2(a + b) == Pow2(a) * Pow2(b)
    decreases b
  {
    if b > 0 {
      Pow2Sum(a, b - 1);
      assert Pow2(a + b) == 2 * Pow2(a + b - 1);
    }
  }

  // ---------------------------------------------------------------------
  // Pass 1 against pass 2: the size of an instruction
  // ---------------------------------------------------------------------

  /** A mode-6 reference to a variable, which pass 1 leaves a bare name. */
  predicate RelativeVariableRef(op: Operand, syms: Symbols)
  {
    op.payload.Name? && op.mode == 6 && op.payload.name !in syms.labels &&
    op.payload.name in syms.variables && syms.variables[op.payload.name] != []
  }

  /** Resolving an operand against the pass-1 and the pass-2 tables leaves
      the same need for an extension word. */
  lemma ResolveKeepsNeed(op: Operand, first: Symbols, second: Symbols)
    requires ResolveOperand(op, first, true).Ok? && ResolveOperand(op, second, false).Ok?
    ensures NeedsWord(ResolveOperand(op, first, true).value) == NeedsWord(ResolveOperand(op, second, false).value)
  {
  }

  lemma {:induction false} WordCountSame(a: seq<Operand>, b: seq<Operand>)
    requires |a| == |b| && forall i :: 0 <= i < |a| ==> NeedsWord(a[i]) == NeedsWord(b[i])
    ensures WordCount(a) == WordCount(b)
    decreases |a|
  {
    if a != [] {
      assert forall i :: 0 <= i < |a| - 1 ==> a[1..][i] == a[i + 1] && b[1..][i] == b[i + 1];
      WordCountSame(a[1..], b[1..]);
    }
  }

  lemma {:induction false} WordCountAppend(a: seq<Operand>, b: seq<Operand>)
    ensures WordCount(a + b) == WordCount(a) + WordCount(b)
    decreases |a|
  {
    if a != [] {
      assert (a + b)[0] == a[0] && (a + b)[1..] == a[1..] + b;
      WordCountAppend(a[1..], b);
    } else {
      assert a + b == b;
    }
  }

  /** An instruction takes as many extension words in pass 1 as in pass 2,
      whatever the tables and the counters. */
  lemma SameWordCount(name: seq<char>, args: seq<seq<char>>, first: Symbols, pc1: int, second: Symbols, pc2: int)
    requires CodeCommand(name, args, first, pc1, true).Ok? && CodeCommand(name, args, second, pc2, false).Ok?
    ensures WordCount(CodeCommand(name, args, first, pc1, true).value.ops) ==
      WordCount(CodeCommand(name, args, second, pc2, false).value.ops)
  {
    var a := CodeCommand(name, args, first, pc1, true).value.ops;
    var b := CodeCommand(name, args, second, pc2, false).value.ops;
    var parsed := RecognizeArgs(args).value;
    forall i | 0 <= i < |args| ensures NeedsWord(a[..|args|][i]) == NeedsWord(b[..|args|][i]) {
      ResolveKeepsNeed(parsed[i], first, second);
    }
    WordCountSame(a[..|args|], b[..|args|]);
    assert a == a[..|args|] + a[|args|..];
    assert b == b[..|args|] + b[|args|..];
    WordCountAppend(a[..|args|], a[|args|..]);
    WordCountAppend(b[..|args|], b[|args|..]);
    WordCountSame(a[|args|..], b[|args|..]);
  }
}
