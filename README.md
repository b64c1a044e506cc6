# PDP-11 two-pass assembler, modelled and proved in Dafny

This project models the core of a small two-pass PDP-11 assembler: the
`PDP11_Parser` class of `pdp11_compiler.py`, its `COMMANDS` table, and the
operand helpers of `funcs.py`. The assembler takes the records of the line
parser and turns them into:

- 16-bit words and 8-bit bytes, kept as strings of `0`/`1`;
- an octal listing;
- little-endian hexadecimal object bytes, grouped in blocks by the address
  where each `.=` starts a block.

Pass 1 (`precompile`) sizes every line and records labels and variables.
Pass 2 (`code_programm`, with `listing_comm` and `object_comm`) emits the
listing and the object bytes, using the addresses pass 1 found.

The modules follow the structure of the program:

- `errors.dfy` (`Errors`): the errors the original raises as exceptions,
  `Option`, `Result`, and `Collect`, the "map, stopping at the first
  failure" of its loops.
- `conversions.dfy` (`Conversions`): the class methods `bin`, `oct`,
  `bin2oct` and `bin2hex`, plus Python's `int(text, base)` and
  `oct(n)[2:]`. Bit strings are sequences of `'0'`/`'1'`, most significant
  bit first, as in the original.
- `operands.dfy` (`Operands`): `recognize_args` as an explicit
  first-match-wins pattern list over the token text; `code_arg`;
  `get_ascii_text`.
- `encoder.dfy` (`Encoder`): `COMMANDS`, `resolve_args`, `code_command`,
  `recgnz_mode`, and the word lists of `code_pseudo_command`.
- `passes.dfy` (`Passes`): both passes as functions on the assembler state,
  and the theorems about them.
- `assembler.dfy` (`Assembler`): class `Pdp11Parser`, with the fields the
  original updates in place and the loops of `precompile`, `code_programm`,
  `listing_comm`, `object_comm`, `resolve_args`, the extension-word loop
  and `code_pseudo_command`. Each method is proved to compute what the
  functions of `Encoder` and `Passes` specify, so the theorems proved there
  hold of the class.

Integers are unbounded. Every fixed width of the original is written out:
- two's complement at 6, 8 and 16 bits;
- the `(1 << 16) + x` wrap of mode-6 constants;
- Python's floor division of displacements. Dafny's `/` agrees with it
  because the divisor is 2.

## Model

| member | source | states |
|---|---|---|
| Assembler.Pdp11Parser.constructor | pdp11_compiler.py:39-56 | counter and current block are 0; block 0 exists and is empty; no labels, variables, listing lines or parsed lines |
| Assembler.Pdp11Parser.ResolveArgs | pdp11_compiler.py:214-251 | the loop over the operands returns the operands of `ResolveAll`, or the error of the first operand that fails |
| Assembler.Pdp11Parser.CodeCommand | pdp11_compiler.py:253-349 | table lookup, classification, resolution, the fields and the `jsr` displacement, run step by step, give exactly `Encoder.CodeCommand`, including its errors |
| Assembler.Pdp11Parser.InstructionItems | pdp11_compiler.py:455-467 | the instruction word followed by the extension words of its operands, as `InstructionWords` specifies, in either pass |
| Assembler.Pdp11Parser.ExtensionItems | pdp11_compiler.py:460-465 | the `recgnz_mode` loop: pass 2 hands each operand the address after its own word (`argument_counter + 2`) and advances by 2 per word emitted; pass 1 uses placeholders; the result equals `ExtWords` or `PlaceholderWords` |
| Assembler.Pdp11Parser.DataItems | pdp11_compiler.py:373-385 | one item per `.WORD`/`.BYTE` argument, in order, equal to `DataWords`; the first bad argument's error otherwise |
| Assembler.Pdp11Parser.StringBytes | pdp11_compiler.py:392-394 | one byte per character holding its code, equal to `CharBytes` |
| Assembler.Pdp11Parser.PseudoCommand | pdp11_compiler.py:351-398 | succeeds exactly when `PseudoWords` does, with its items; `.=` moves the counter and the current block and opens a fresh empty block; an error changes no field |
| Assembler.Pdp11Parser.ListingComm | pdp11_compiler.py:475-504 | appends the header (when the text is not empty) and one tabbed octal line per item, with the byte staircase; the counter advances by `len // 8` per item; the new state is `Passes.ListingComm` of the old one |
| Assembler.Pdp11Parser.ObjectComm | pdp11_compiler.py:506-522 | appends the items' bytes to the current block, and nothing else changes; fails with `NoSuchBlock` exactly when the current block has no byte list |
| Assembler.Pdp11Parser.AppendBytes | pdp11_compiler.py:520-522 | the inner loop appends the bytes, in order, to the list of the current block only |
| Assembler.Pdp11Parser.LineItems | pdp11_compiler.py:79-94 | the items of a line (directive, instruction or nothing), with the state after a `.=`, as `Emit` and `ApplyOrigin` specify |
| Assembler.Pdp11Parser.Advance | pdp11_compiler.py:107-109 | the counter advances by `Size(items)`; no other field changes |
| Assembler.Pdp11Parser.Pass1Line | pdp11_compiler.py:79-109 | one line of pass 1: the new state is `Pass1Step` of the old one, or the method returns `Pass1Step`'s error |
| Assembler.Pdp11Parser.Precompile | pdp11_compiler.py:58-112 | keeps every record for pass 2, runs pass 1 over them and resets counter and block; succeeds exactly when `Pass1` does and ends in `EndPass1` of its result |
| Assembler.Pdp11Parser.Pass2Line | pdp11_compiler.py:450-473 | one line of pass 2: the counter is captured, then the line's items are made and listed, and their bytes stored; the new state is `Pass2Step` of the old one, or its error |
| Assembler.Pdp11Parser.CodeProgramm | pdp11_compiler.py:446-473 | pass 2 over the kept records; succeeds exactly when `Pass2` does and ends in its result |
| Assembler.Pdp11Parser.Compile | pdp11_compiler.py:114-124 | both passes on a fresh assembler; succeeds exactly when `Assemble` does and ends in its state |
| Conversions.Bin | pdp11_compiler.py:127-146 | `w` bits holding `n` for 0 <= n < 2^w and `2^w + n` for -2^(w-1) <= n < 0 |
| Conversions.Oct | pdp11_compiler.py:148-160 | `f"{n:0{w}o}"`: the octal digits of `n` zero-padded to `w`; `OctParses` reads it back as `n` for every `n` and width |
| Conversions.BinField | pdp11_compiler.py:127-146 | succeeds exactly when `n` fits in `w` bits as above, and then holds `Bin`'s value |
| Conversions.BinSignedRoundTrip | pdp11_compiler.py:139-145 | a value in the signed `w`-bit range reads back from `Bin(n, w)` as `n` |
| Conversions.FormatBits | pdp11_compiler.py:420-425 | `f"{n:0{w}b}"` for 0 <= n < 2^w: `w` bits holding `n`; any other `n` fails |
| Conversions.BitsRoundTrip | pdp11_compiler.py:174-181 | rendering a bit string's value at its own width gives the string back |
| Conversions.NumeralParses | pdp11_compiler.py:148-160 | `int()` in the same base reads a zero-padded numeral (as `oct` writes it, sign included) back as its number |
| Conversions.OctParses | pdp11_compiler.py:148-160 | `int(oct(n, w), 8) == n` for every `n` and width |
| Conversions.OctText | pdp11_compiler.py:228-229 | `oct(n)[2:]`: the octal digits of `n`, with the letter `o` left in front for a negative `n`; `OctTextParses` reads it back for n >= 0 and shows `int` failing on it otherwise |
| Conversions.ParseInt | pdp11_compiler.py:228-251 | `int(text, base)` on an optional sign and digits of the base; empty text fails; `NumeralParses`, `OctParses`, `OctTextParses` and `DecimalParses` read back every numeral the assembler writes |
| Conversions.OctTextParses | pdp11_compiler.py:228-229 | `int(oct(n)[2:], 8) == n` for n >= 0; for n < 0 the slice keeps the letter `o` and `int` fails |
| Conversions.DecimalParses | pdp11_compiler.py:248-250 | the six-digit decimal literal a variable is replaced by reads back as its value |
| Conversions.DigitsRoundTrip | pdp11_compiler.py:148-160 | the digits of `n` in base 8, 10 or 16 are digits of that base with value `n` |
| Conversions.BinToOct | pdp11_compiler.py:197-212 | `bin2oct`: "" for "", the leading bit and five 3-bit groups for a word, the top two bits and two groups for a byte; `BinToOctIsOctal` shows it is the zero-padded octal of the value |
| Conversions.BinToOctIsOctal | pdp11_compiler.py:184-212 | `bin2oct` of a 16-bit word is the 6-digit octal of its value, of a byte the 3-digit octal, of "" the empty text |
| Conversions.WordToOct | pdp11_compiler.py:200-205 | `bin2oct` of a word: the leading bit then five 3-bit groups give the 6-digit octal of the value |
| Conversions.ByteToOct | pdp11_compiler.py:207-212 | `bin2oct` of a byte: the top two bits then two 3-bit groups give the 3-digit octal of the value |
| Conversions.BinToHex | pdp11_compiler.py:163-182 | a word gives its low byte then its high byte, a byte gives one token, "" none; one token per 8 bits |
| Conversions.WordBytes | pdp11_compiler.py:174-177 | the low byte is the value mod 256 read from bits 8-15, the high byte the value div 256 read from bits 0-7 |
| Conversions.ByteTokenParses | pdp11_compiler.py:174-181 | reading the two hex digits of a byte token gives the byte back |
| Conversions.BlockHeaderCount | pdp11_compiler.py:541-542 | the header of a block is the hex address, a space, four hex digits reading back as the byte count, and a newline |
| Operands.RecognizeArgs | funcs.py:137-141 | one record per token, in token order; fails exactly when some token fails to classify |
| Operands.Classify | funcs.py:103-141 | one operand record: the mode from `ModeOf` and the payload from the name grammar, failing with `InvalidOperand` when either rejects the token; `RegisterForms`, `IndexForms`, `ImmediateForms`, `DeferredValueForm`, `RelativeForm` and `RegisterPrefixWins` give its result for every form |
| Operands.ModeOf | funcs.py:85-101 | the twelve mode patterns tried in order, the first that matches a prefix deciding the mode; `NoPrefixNoMatch` shows a pattern never matches a token without its leading text |
| Operands.RegisterForms | funcs.py:94-99 | for every register name `R`: `R`, `(R)`, `(R)+`, `@(R)+`, `-(R)` and `@-(R)` are modes 0 to 5 with payload `R` |
| Operands.RegisterPrefixWins | funcs.py:99 | a token that begins with a register name is that register in mode 0, whatever follows |
| Operands.IndexForms | funcs.py:87-90 | `d(R)` is mode 6 and `@d(R)` mode 7, with the displacement (sign allowed) and the register as payload |
| Operands.ImmediateForms | funcs.py:91-92 | `#x` is mode 2 and `@#x` mode 3, with `x`'s constant, symbol or name payload |
| Operands.DeferredValueForm | funcs.py:93 | `@x` is mode 7 for a value `x` that does not begin like a register |
| Operands.RelativeForm | funcs.py:100 | a bare constant, name or `'c` that does not begin like a register is mode 6 |
| Operands.NoPrefixNoMatch | funcs.py:87-101 | a pattern whose leading text the token lacks does not match it |
| Operands.RegisterCodeOfName | funcs.py:154-167 | `sp`/`SP` is register 6, `pc`/`PC` register 7, `Rn`/`rn` register n |
| Operands.CodeArg | funcs.py:144-179 | six bits: mode times 8 plus the register; constants, symbols and labels use register 7; an unresolved name gives `000000` |
| Operands.Find | funcs.py:192 | `str.find`: the first index where the pattern occurs, or -1 when it occurs nowhere |
| Operands.AsciiText | funcs.py:182-203 | succeeds exactly when the text after the directive has a delimiter that recurs on the line; returns the characters strictly between, which hold neither the delimiter nor a line end |
| Encoder.CommandsFillAWord | pdp11_compiler.py:20-35 | every mnemonic's opcode and declared fields fill exactly 16 bits |
| Encoder.ResolveOperand | pdp11_compiler.py:221-251 | keeps the mode and removes symbols; exactly the decimal-dot constants, multi-character symbols and non-numeric variable values fail; registers, indexed operands and (in pass 1) names pass unchanged |
| Encoder.ResolveSubstitutes | pdp11_compiler.py:223-251 | a symbol becomes the constant `oct(ord(c))[2:]`; in pass 2 a label becomes its address in octal and a variable its value as a six-digit decimal literal, a mode-6 reference keeping its name beside the value; a name in neither table, and a plain constant, stay as they are |
| Encoder.ResolvedValues | pdp11_compiler.py:228-251 | the text a resolved operand holds reads back as the symbol's character code, the label's address (when not negative) or the variable's value |
| Encoder.LabelWord | pdp11_compiler.py:241-245 | a label referenced outside mode 6 gets, in pass 2, an extension word holding the label's address |
| Encoder.ResolveOperandAsWritten | pdp11_compiler.py:247-251 | as written, resolution differs from the corrected one only on a mode-6 reference to a variable, which loses its name |
| Encoder.RelativeVariableGrowsAsWritten | pdp11_compiler.py:237-251 | for `N = 5` and `clr N`, the operand has no word in pass 1, a word in pass 2 as written, and no word in pass 2 corrected |
| Encoder.ResolveAll | pdp11_compiler.py:214-251 | one resolved operand per operand, in order; fails exactly when one of them fails |
| Encoder.ExtensionWord | pdp11_compiler.py:413-444 | a name outside mode 6 gives 16 zero bits, in mode 6 no word; a register or symbol gives no word; a constant or an indexed shift always gives a word |
| Encoder.ExtensionWordNeeds | pdp11_compiler.py:413-444 | whether an operand takes a word depends only on its mode and payload, not on the counter |
| Encoder.ConstantWord | pdp11_compiler.py:430-442 | outside mode 6 an octal constant gives its 16-bit two's complement |
| Encoder.RelativeWord | pdp11_compiler.py:437-442 | in mode 6, adding the word to the counter handed to `recgnz_mode` gives the constant back modulo 2^16 |
| Encoder.ShiftWord | pdp11_compiler.py:419-425 | an index shift's word reads back as the signed shift |
| Encoder.ExtWordsCount | pdp11_compiler.py:460-465 | pass 2 makes one extension word per operand that needs one |
| Encoder.ExtWords | pdp11_compiler.py:460-465 | pass 2's extension words, each 16 bits, each operand's made relative to the address after its own word; `ExtWordsCount` gives one per operand that needs one |
| Encoder.PlaceholderWordsCount | pdp11_compiler.py:88-94 | pass 1 makes one placeholder word per operand that needs one |
| Encoder.PlaceholderWords | pdp11_compiler.py:88-94 | pass 1's extension words, each 16 bits and made relative to 0; `PlaceholderWordsCount` gives one per operand that needs one, and `SameWordCount` as many as pass 2 makes |
| Encoder.TargetAddress | pdp11_compiler.py:301 | the address of the label named by the last argument; fails when there is no such label |
| Encoder.SobOffset | pdp11_compiler.py:292-303 | the count `(PC + 2 - label) // 2` in six bits, refused unless it lies in 0..63 |
| Encoder.BranchOffset | pdp11_compiler.py:315-324 | the offset `(label - (PC + 2)) // 2` in 8-bit two's complement, refused outside -128..127 |
| Encoder.BranchOffsetOverflows | pdp11_compiler.py:324 | as written, a forward branch of 128 words is accepted and encodes -128 |
| Encoder.SobOffsetOverflows | pdp11_compiler.py:303 | as written, a `sob` to a label ahead is accepted and encodes a count of 63 |
| Encoder.SobOffsetAsWritten | pdp11_compiler.py:303 | `bin((PC + 2 - label) // 2, 6)` as written: accepted exactly for counts -32..63, negative ones written as `64 + n` |
| Encoder.BranchOffsetAsWritten | pdp11_compiler.py:324 | `bin((label - (PC + 2)) // 2, 8)` as written: accepted exactly for offsets -128..255, so 128..255 read back as negative |
| Encoder.CorrectedOffsetsAgree | pdp11_compiler.py:292-324 | where the corrected `sob` and branch fields accept an offset, `bin` writes the same bits; it accepts beyond them only a `sob` count of -32..-1 and a forward branch of 128..255 words |
| Encoder.CodeCommand | pdp11_compiler.py:253-349 | an unknown mnemonic fails at the lookup; the word is 16 bits and starts with the opcode; the operands are the resolved records plus the `jsr` displacement; the `sob` and branch fields use the corrected ranges of the Findings |
| Encoder.FieldR | pdp11_compiler.py:287-290 | the r field is the low three bits of the first operand's field |
| Encoder.FieldSs | pdp11_compiler.py:310-313 | the ss field follows r and is the field of operand `has_r` |
| Encoder.FieldDd | pdp11_compiler.py:305-308 | the dd field follows ss and is the field of the last operand |
| Encoder.FieldNn | pdp11_compiler.py:292-303 | the nn field ends the word |
| Encoder.FieldXx | pdp11_compiler.py:315-324 | the xx field ends the word |
| Encoder.NnField | pdp11_compiler.py:292-303 | six bits; the zero placeholder in pass 1; in pass 2 the count `(PC + 2 - label) // 2`, succeeding exactly when the label exists and the count lies in 0..63 (the corrected range) |
| Encoder.XxField | pdp11_compiler.py:315-324 | eight bits; the zero placeholder in pass 1; in pass 2 the signed offset `(label - (PC + 2)) // 2`, succeeding exactly when the label exists and the offset lies in -128..127 (the corrected range) |
| Encoder.ShiftOperand | pdp11_compiler.py:331-342 | `jsr` appends one mode-2 constant: `0` in pass 1, `label - (PC + 4)` in pass 2; fails in pass 2 without the label |
| Encoder.BranchTarget | pdp11_compiler.py:315-324 | in pass 2, a branch to a label at an even distance lands on it: PC + 2 + 2 * offset == label |
| Encoder.SobRegister | pdp11_compiler.py:287-290 | the three bits after the `sob` opcode are the register of the first operand |
| Encoder.SobTarget | pdp11_compiler.py:292-303 | in pass 2, counting 2 * nn back from PC + 2 reaches a `sob` label at an even distance |
| Encoder.ShiftIsLast | pdp11_compiler.py:336-342 | the `jsr` displacement is the last operand |
| Encoder.JsrTarget | pdp11_compiler.py:338-342 | the word of the `jsr` displacement holds `label - (PC + 4)` in 16-bit two's complement |
| Encoder.UnsignedWraps | pdp11_compiler.py:434-435 | adding a two's-complement word to an address adds its number, modulo 2^16 |
| Encoder.DataItemValue | pdp11_compiler.py:377-384 | a `.WORD`/`.BYTE` argument written in octal gives `Bin` of its number |
| Encoder.QuoteItem | pdp11_compiler.py:379-380 | the one data argument that `ord` accepts, a lone quote, gives the code 39 |
| Encoder.DataWords | pdp11_compiler.py:373-385 | one item per argument and in order; fails exactly when an argument fails |
| Encoder.DataItem | pdp11_compiler.py:377-384 | one `.WORD`/`.BYTE` argument: an item of the directive's width; a decimal-dot number and a quoted token longer than one character fail; `DataItemValue` and `QuoteItem` give its value |
| Encoder.CharByte | pdp11_compiler.py:393 | a byte holding the character's code; codes above 255 are refused |
| Encoder.CharBytes | pdp11_compiler.py:392-394 | one byte per character holding its code; fails exactly when some code is above 255 |
| Encoder.PseudoWords | pdp11_compiler.py:365-398 | only `.=` sets an origin; all items are words or bytes; any other directive fails |
| Encoder.Origin | pdp11_compiler.py:366-371 | `.=` emits nothing and sets the origin to the octal argument; fails without an argument or on bad octal |
| Encoder.DataEmitted | pdp11_compiler.py:373-385 | `.WORD`/`.BYTE`: no origin, one item of the directive's width per argument |
| Encoder.AsciiEmitted | pdp11_compiler.py:387-398 | the bytes of the delimited text |
| Encoder.AsciiItems | pdp11_compiler.py:392-397 | the bytes of the characters, then one zero byte for `.ASCIZ` |
| Encoder.AscizBytes | pdp11_compiler.py:396-397 | an `.ASCIZ` string is its character codes followed by exactly one zero byte |
| Encoder.ResolveKeepsNeed | pdp11_compiler.py:221-251 | with the corrected resolution, resolving in pass 1 and in pass 2 leaves the same need for an extension word, for every operand |
| Encoder.SameWordCount | pdp11_compiler.py:88-94 | an instruction has as many extension words in pass 1 as in pass 2, whatever the tables and counters |
| Passes.Emit | pdp11_compiler.py:79-94 | a directive emits `PseudoWords`, an instruction its words without origin, an empty statement nothing; a labelled directive or instruction without argument tokens fails with `NoArgumentList` |
| Passes.InstructionWords | pdp11_compiler.py:455-467 | an instruction's opcode word from `code_command`, then one 16-bit word per operand that needs one: placeholders in pass 1, pass-2 words otherwise |
| Passes.Pass1StopsAtBareLabel | funcs.py:48-49 | pass 1 fails at a labelled statement without argument tokens, whose record has no argument list; with the error `NoArgumentList` when the lines before it go through |
| Passes.BareLabelFails | pdp11_compiler.py:84-88 | such a line makes the whole assembly fail, corrected and as written |
| Passes.InstructionSize | pdp11_compiler.py:107-109 | an instruction takes 2 bytes plus 2 for each operand that needs a word |
| Passes.LineSizeStable | pdp11_compiler.py:79-109 | a line takes the same room, and moves the origin to the same place, in pass 1 and in pass 2, whatever tables and counters each uses |
| Passes.ApplyOrigin | pdp11_compiler.py:366-371 | `.=` puts counter and current block at the address and gives it a fresh empty block; otherwise nothing changes |
| Passes.Pass1StepEffect | pdp11_compiler.py:79-109 | a pass-1 line binds its label to the counter after the line's own `.=`, binds its variable to the first argument, and advances the counter past its items; fails when the items fail or a variable has no argument |
| Passes.Pass1Step | pdp11_compiler.py:79-109 | one pass-1 line: its items with placeholder fields, then `Record`; `Pass1StepEffect` states its new state and its errors |
| Passes.Record | pdp11_compiler.py:96-109 | after the line's `.=` the label is bound to the counter, the variable to the first argument (none fails with `MissingArgument`), and the counter moves past the items; stated in `Pass1StepEffect` |
| Passes.Pass1 | pdp11_compiler.py:65-109 | pass 1 over the records in order, stopping at the first error; `Pass1KeepsBlocksEmpty`, `LabelIsStart` and `PassesAgree` are about it |
| Passes.EndPass1 | pdp11_compiler.py:111-112 | counter and current block are both 0 at the start of pass 2; labels and variables are kept |
| Passes.EndPass1AsWritten | pdp11_compiler.py:111-112 | as written: only the counter goes back to 0 |
| Passes.ItemLineText | pdp11_compiler.py:497-504 | an item's listing line is one or two tabs and then the octal of its value, 6 digits for a word and 3 for a byte |
| Passes.ListingComm | pdp11_compiler.py:475-504 | the old listing is kept; one header line (when the text is not empty) showing the counter captured before the line in six octal digits, then one item line per item; the counter advances by `Size`; nothing else changes |
| Passes.HexBytes | pdp11_compiler.py:519-522 | one byte token per byte of the items |
| Passes.ObjectComm | pdp11_compiler.py:506-522 | the same blocks exist afterwards; the items' bytes go to the end of the current block; no other block and no other field changes; fails with `NoSuchBlock` exactly when the current block has no list |
| Passes.Pass2StepEffect | pdp11_compiler.py:446-473 | a pass-2 line lists its header and items, advances the counter from where its items start, and appends their bytes to the block they start in |
| Passes.Pass2Step | pdp11_compiler.py:450-473 | one pass-2 line: the counter is captured, the items made with the real addresses, then `Output`; `Pass2StepEffect` states its new state and errors |
| Passes.Output | pdp11_compiler.py:470-473 | the line's `.=`, then `listing_comm` from the captured counter and `object_comm`; stated in `Pass2StepEffect` |
| Passes.Pass2 | pdp11_compiler.py:450-473 | pass 2 over the records in order, stopping at the first error; `Pass2Placed` and `PassesAgree` are about it |
| Passes.SizeAppend | pdp11_compiler.py:107-109 | the bytes of two item lists add up |
| Passes.Pass1KeepsBlocksEmpty | pdp11_compiler.py:366-371 | pass 1 only creates empty blocks |
| Passes.Pass2Placed | pdp11_compiler.py:446-473 | pass 2 keeps the invariant that the current block's bytes run up to the counter, so every byte lands at the address the listing shows |
| Passes.EndPass1Placed | pdp11_compiler.py:111-112 | the corrected end of pass 1 starts pass 2 with that invariant |
| Passes.EndPass1AsWrittenPlaced | pdp11_compiler.py:111-112 | as written, pass 2 starts with that invariant exactly when pass 1 ended in block 0 |
| Passes.Assemble | pdp11_compiler.py:114-124 | pass 1 from the initial state, the corrected reset, then pass 2; `AssemblePlaced` shows every byte lands at its listed address, `CorrectedRun` runs an example |
| Passes.AssemblePlaced | pdp11_compiler.py:114-124 | after a successful run the current block's bytes run up to the counter |
| Passes.AssembleAsWritten | pdp11_compiler.py:114-124 | the same with only the counter reset; `FirstBlockLostAsWritten` shows it losing the bytes before the first `.=` |
| Passes.FirstBlockLostAsWritten | pdp11_compiler.py:111-112 | for `halt` then `. = 1000`, the code as written loses the `halt` bytes, and the corrected model keeps them in block 0 |
| Passes.PassesAgree | pdp11_compiler.py:96-112 | started at the same counter, both passes put every line at the same address and end at the same counter |
| Passes.Pass1KeepsLabel | pdp11_compiler.py:96-101 | pass 1 keeps a label that no later line defines again |
| Passes.LabelIsStart | pdp11_compiler.py:96-101 | pass 1 binds a label to the address where its last defining line's items start |
| Passes.LabelsMarkPass2Addresses | pdp11_compiler.py:96-112 | each label holds the address where pass 2 puts its line, the address the displacements are computed from (with the corrected resolution of the Findings) |
| Passes.Pass2StepAppends | pdp11_compiler.py:506-522 | a pass-2 line without `.=` appends its bytes to the current block and advances the counter by their number |
| Passes.Pass2StepMoves | pdp11_compiler.py:366-371 | a pass-2 `.=` line starts a fresh empty block at its address |

## Left out

- File and command-line plumbing is not modelled: opening the source, `rstrip`, skipping blank lines and `file_lines` in `precompile`, `write_listing`, `write_obj` (only its block header is modelled, in `BlockHeader`), and the `click` entry point. The model's input is the records of the line parser.
- `parse_line` is not part of this model. Its records are the input type `Line`: label, variable, directive or mnemonic, argument tokens and text. `parse_line` gives a record an empty argument list only when it has no label (funcs.py:48-49). A labelled statement without arguments therefore has no argument list, which `ArgsAbsent` recognises and `Emit` refuses.
- pyparsing is not modelled as a library. Both grammars of `recognize_args` are explicit prefix matchers, tried first match first, and they need not consume the whole token, as `parseString` does not.
- Python's `int()` is modelled as an optional sign (`-` or `+`) followed by digits. Underscores, surrounding blanks and base prefixes are not accepted.
- The `label` entries' `fileline_num` is not modelled, because nothing reads it.
- Exceptions are modelled as `Err` results. Assembly stops at the first one. The state that a half-finished line leaves behind is not modelled; see the Pdp11Parser lines below.
- The unknown directive, for which `code_pseudo_command` returns `None` and the caller then fails, is the error `UnknownDirective`.
- `bin` of a value that does not fit its width space-pads or widens its result; the model refuses it with `OutOfRange`.
- `bin2hex`/`bin2oct` of lengths other than 0, 8 and 16 are excluded by preconditions, because no item of the assembler has another length.
- A `.WORD`/`.BYTE` argument that uses the decimal-dot path, or a quoted token of two characters, fails as Python's `int()`/`ord()` do.
- Encoder.ResolveOperand: in pass 2 a mode-6 reference to a variable keeps its name beside the value, as a mode-6 label reference does, and so takes no extension word. The original drops the name (pdp11_compiler.py:251) and emits a word that pass 1 did not reserve; that behaviour is `ResolveOperandAsWritten`, examined under Findings.
- Encoder.SameWordCount, Passes.LineSizeStable and Passes.PassesAgree hold for the corrected resolution only. As written, a mode-6 reference to a variable makes a line 2 bytes longer in pass 2 (`RelativeVariableGrowsAsWritten`).
- Passes.LabelsMarkPass2Addresses holds for the corrected resolution only. As written, every label after a mode-6 variable reference is 2 bytes short of where pass 2 puts its line.
- Encoder.NnField uses the corrected `SobOffset`, which refuses the counts -32..-1 (a label ahead) that `bin` writes at pdp11_compiler.py:303. The field as written is `SobOffsetAsWritten`; `CorrectedOffsetsAgree` shows the two agree everywhere else.
- Encoder.XxField uses the corrected `BranchOffset`, which refuses the offsets 128..255 that `bin(.., 8)` writes at pdp11_compiler.py:324. The field as written is `BranchOffsetAsWritten`; `CorrectedOffsetsAgree` shows the two agree everywhere else.
- Encoder.CodeCommand, and with it `Pdp11Parser.CodeCommand`, `Pass2Line`, `CodeProgramm`, `Compile` and `Passes.Assemble`, fails in pass 2 on a `sob` to a label ahead and on a branch of 128..255 words forward, which the original encodes wrongly (see `NnField`, `XxField` and Findings).
- Encoder.ExtensionWord refuses with `OutOfRange` a constant or shift whose word does not fit 16 bits, where `recgnz_mode` writes a wider string (pdp11_compiler.py:425, :442). For example, `clr 200000` at address 0 fails in pass 1, where the original writes 17 bits, counts 2 bytes, and in pass 2 writes 177774.
- `resolve_args` rewrites the operand dictionaries in place. The model returns new `Operand` values instead, because the dictionaries are not shared with anything else.
- Assembler.Pdp11Parser.Precompile: after an error, only the error is stated, not the records kept so far or the fields changed by the lines before it.
- Assembler.Pdp11Parser.CodeProgramm: after an error, only the error is stated, not the listing and bytes already produced.
- Assembler.Pdp11Parser.Pass1Line: after an error, only the error is stated, not the fields the line had changed before it failed.
- Assembler.Pdp11Parser.Pass2Line: after an error, only the error is stated, not the fields the line had changed before it failed.
- Assembler.Pdp11Parser.Precompile uses the corrected end of pass 1 (`EndPass1`, which also resets the current block). The end as written is `EndPass1AsWritten` and is examined under Findings.

## Findings

| source | as written | input that shows it | evidently intended | confidence | as-written member | corrected member |
|---|---|---|---|---|---|---|
| pdp11_compiler.py:111-112 | pass 1 resets the counter but not `curr_block` | `halt` then `. = 1000`: pass 2 appends the `halt` bytes to block 1000, and the `.=` empties that block again | pass 2 starts at address 0 in block 0, where pass 1 started | high (not executed) | Passes.FirstBlockLostAsWritten | Passes.EndPass1Placed |
| pdp11_compiler.py:324 | `bin(N_shift // 2, width=8)` accepts offsets up to 255 | a branch at 0 to a label at 258 (128 words ahead) encodes -128, a backward branch | the PDP-11 branch offset is a signed byte, -128..127 | high (not executed) | Encoder.BranchOffsetOverflows | Encoder.BranchOffset |
| pdp11_compiler.py:303 | `bin(N_shift // 2)` accepts negative counts | a `sob` at 0 to a label at 4 encodes 63, a jump 126 bytes back | the `sob` count is unsigned, 0..63 words back, so a label ahead is an error | medium (not executed) | Encoder.SobOffsetOverflows | Encoder.SobOffset |
| pdp11_compiler.py:247-251 | a variable referenced in mode 6 becomes a plain constant in pass 2, which takes an extension word (430-442), while pass 1 left the bare name, which takes none (417-426) | `N = 5`, then `clr N`: 2 bytes in pass 1 and 4 in pass 2, so every later label is 2 bytes short | a line takes the same room in both passes, as for a mode-6 label reference, whose name is kept (243-245) | medium (not executed) | Encoder.RelativeVariableGrowsAsWritten | Encoder.ResolveKeepsNeed |
