/** The operand classifier of `funcs.py`: `recognize_args` turns each operand
    token into an addressing-mode code and one payload, `code_arg` packs an
    operand into its 6-bit mode/register field, and `get_ascii_text` cuts the
    string argument of `.ASCII`/`.ASCIZ` out of the source line.

    The original drives two pyparsing grammars over each token without
    requiring them to consume the whole token, so every pattern here matches a
    PREFIX of the token and ignores what follows, and the first pattern that
    matches wins. */
module Operands {
  import opened Errors
  import opened Conversions

  /** An addressing-mode code. */
  type Mode = m: nat | m < 8

  /** What an operand record holds besides its mode: the keys `reg`,
      `shift`, `const`, `symbol` and `variable` of the original's dictionary,
      in the combinations that can occur. */
  datatype Payload =
    | Reg(reg: seq<char>)                          // a register name
    | Indexed(shift: seq<char>, reg: seq<char>)    // a displacement and a register
    | Const(digits: seq<char>)                     // a numeric literal, as written
    | Symbol(text: seq<char>)                      // the text after a quote
    | Name(name: seq<char>)                        // a label or variable, unresolved
    | NameRef(name: seq<char>, digits: seq<char>)  // a mode-6 name kept beside its value

  datatype Operand = Operand(mode: Mode, payload: Payload)

  // ---------------------------------------------------------------------
  // Character classes and prefix matchers
  // ---------------------------------------------------------------------

  predicate IsDigit(c: char) { '0' <= c <= '9' }
  predicate IsAlpha(c: char) { 'a' <= c <= 'z' || 'A' <= c <= 'Z' }
  predicate IsNameChar(c: char) { IsAlpha(c) || IsDigit(c) || c == '_' }
  /** A printable, non-blank ASCII character. */
  predicate IsPrintable(c: char) { '!' <= c <= '~' }
  predicate IsRLetter(c: char) { c == 'r' || c == 'R' }
  predicate IsOctDigit(c: char) { '0' <= c <= '7' }
  /** Characters that may precede a register in a register operand. */
  predicate IsRegisterLead(c: char) { c == '@' || c == '-' || c == '+' || c == '(' }
  /** The characters pyparsing skips before a token. */
  predicate IsWhite(c: char) { c == ' ' || c == '\t' || c == '\n' || c == '\r' }

  predicate StartsWith(s: seq<char>, pre: seq<char>) { |pre| <= |s| && s[..|pre|] == pre }
  predicate Leads(s: seq<char>, c: char) { |s| > 0 && s[0] == c }

  /** The length of the longest prefix of `s` whose characters satisfy `p`. */
  function Span(s: seq<char>, p: char -> bool): (n: nat)
    ensures n <= |s|
    ensures forall i :: 0 <= i < n ==> p(s[i])
    ensures n < |s| ==> !p(s[n])
  {
    if s == [] || !p(s[0]) then 0 else 1 + Span(s[1..], p)
  }

  /** The register pattern `[rR]+[0-7] | pc | PC | sp | SP`: the length of
      the register name at the start of `s`. */
  function MatchRegister(s: seq<char>): (r: Option<nat>)
    ensures r.Some? ==> 2 <= r.value <= |s|
  {
    var k := Span(s, IsRLetter);
    if 1 <= k < |s| && IsOctDigit(s[k]) then Some(k + 1)
    else if StartsWith(s, "pc") || StartsWith(s, "PC") || StartsWith(s, "sp") || StartsWith(s, "SP") then Some(2)
    else None
  }

  /** A displacement: an optional minus sign and at least one digit. */
  function MatchShift(s: seq<char>): (r: Option<nat>)
    ensures r.Some? ==> 1 <= r.value <= |s|
  {
    if |s| > 0 && s[0] == '-' then
      var d := Span(s[1..], IsDigit);
      if d >= 1 then Some(1 + d) else None
    else
      var d := Span(s, IsDigit);
      if d >= 1 then Some(d) else None
  }

  /** A constant: a displacement optionally followed by a decimal point. */
  function MatchConst(s: seq<char>): (r: Option<nat>)
    ensures r.Some? ==> 1 <= r.value <= |s|
  {
    match MatchShift(s)
    case None => None
    case Some(n) => if n < |s| && s[n] == '.' then Some(n + 1) else Some(n)
  }

  /** A name: a letter followed by letters, digits and underscores. */
  function MatchName(s: seq<char>): (r: Option<nat>)
    ensures r.Some? ==> 1 <= r.value <= |s|
  {
    if |s| > 0 && IsAlpha(s[0]) then Some(1 + Span(s[1..], IsNameChar)) else None
  }

  /** An ASCII literal: a quote followed by printable characters. */
  function MatchSymbol(s: seq<char>): (r: Option<nat>)
    ensures r.Some? ==> 2 <= r.value <= |s|
  {
    if |s| > 0 && s[0] == '\'' then
      var d := Span(s[1..], IsPrintable);
      if d >= 1 then Some(1 + d) else None
    else None
  }

  /** The value alternatives in their order: ASCII literal, constant, name. */
  function ParseValue(s: seq<char>): Option<Payload>
  {
    match MatchSymbol(s)
    case Some(n) => Some(Symbol(s[1..n]))
    case None =>
      match MatchConst(s)
      case Some(n) => Some(Const(s[..n]))
      case None =>
        match MatchName(s)
        case Some(n) => Some(Name(s[..n]))
        case None => None
  }

  /** `<shift>(<register>)`. */
  function ParseIndexed(s: seq<char>): Option<Payload>
  {
    match MatchShift(s)
    case None => None
    case Some(a) =>
      if a < |s| && s[a] == '(' then
        match MatchRegister(s[a + 1..])
        case None => None
        case Some(b) =>
          if a + 1 + b < |s| && s[a + 1 + b] == ')' then Some(Indexed(s[..a], s[a + 1..a + 1 + b]))
          else None
      else None
  }

  /** `<pre><register><post>`: the register text, if `s` starts that way. */
  function ParseBracketed(s: seq<char>, pre: seq<char>, post: seq<char>): Option<seq<char>>
  {
    if StartsWith(s, pre) then
      var t := s[|pre|..];
      match MatchRegister(t)
      case None => None
      case Some(b) => if StartsWith(t[b..], post) then Some(t[..b]) else None
    else None
  }

  // ---------------------------------------------------------------------
  // Mode classification: an ordered table, first match wins
  // ---------------------------------------------------------------------

  /** The shapes of the mode patterns. */
  datatype Pattern =
    | IndexedForm(prefix: seq<char>)                 // prefix <shift>(<register>)
    | ValueForm(prefix: seq<char>)                   // prefix <symbol | constant | name>
    | RegisterForm(prefix: seq<char>, suffix: seq<char>) // prefix <register> suffix

  predicate Matches(p: Pattern, t: seq<char>)
  {
    match p
    case IndexedForm(pre) => StartsWith(t, pre) && ParseIndexed(t[|pre|..]).Some?
    case ValueForm(pre) => StartsWith(t, pre) && ParseValue(t[|pre|..]).Some?
    case RegisterForm(pre, post) => ParseBracketed(t, pre, post).Some?
  }

  /** The mode patterns of `recognize_args`, tried in this order; the first
      pattern that matches a prefix of the token decides its mode. */
  function ModeOf(t: seq<char>): Option<Mode>
  {
    if Matches(IndexedForm("@"), t) then Some(7)               // @n(R)
    else if Matches(IndexedForm(""), t) then Some(6)           // n(R)
    else if Matches(ValueForm("#"), t) then Some(2)            // #x
    else if Matches(ValueForm("@#"), t) then Some(3)           // @#x
    else if Matches(ValueForm("@"), t) then Some(7)            // @x
    else if Matches(RegisterForm("@-(", ")"), t) then Some(5)  // @-(R)
    else if Matches(RegisterForm("-(", ")"), t) then Some(4)   // -(R)
    else if Matches(RegisterForm("@(", ")+"), t) then Some(3)  // @(R)+
    else if Matches(RegisterForm("(", ")+"), t) then Some(2)   // (R)+
    else if Matches(RegisterForm("(", ")"), t) then Some(1)    // (R)
    else if Matches(RegisterForm("", ""), t) then Some(0)      // R
    else if Matches(ValueForm(""), t) then Some(6)             // x
    else None
  }

  // Each row of the table decides the mode of a token that matches it and
  // none of the rows above it.

  lemma ModeRow0(t: seq<char>)
    requires Matches(IndexedForm("@"), t)
    ensures ModeOf(t) == Some(7)
  {
  }

  lemma ModeRow1(t: seq<char>)
    requires !Matches(IndexedForm("@"), t)
    requires Matches(IndexedForm(""), t)
    ensures ModeOf(t) == Some(6)
  {
  }

  lemma ModeRow2(t: seq<char>)
    requires !Matches(IndexedForm("@"), t)
    requires !Matches(IndexedForm(""), t)
    requires Matches(ValueForm("#"), t)
    ensures ModeOf(t) == Some(2)
  {
  }

  lemma ModeRow3(t: seq<char>)
    requires !Matches(IndexedForm("@"), t)
    requires !Matches(IndexedForm(""), t)
    requires !Matches(ValueForm("#"), t)
    requires Matches(ValueForm("@#"), t)
    ensures ModeOf(t) == Some(3)
  {
  }

  lemma ModeRow4(t: seq<char>)
    requires !Matches(IndexedForm("@"), t)
    requires !Matches(IndexedForm(""), t)
    requires !Matches(ValueForm("#"), t)
    requires !Matches(ValueForm("@#"), t)
    requires Matches(ValueForm("@"), t)
    ensures ModeOf(t) == Some(7)
  {
  }

  lemma ModeRow5(t: seq<char>)
    requires !Matches(IndexedForm("@"), t)
    requires !Matches(IndexedForm(""), t)
    requires !Matches(ValueForm("#"), t)
    requires !Matches(ValueForm("@#"), t)
    requires !Matches(ValueForm("@"), t)
    requires Matches(RegisterForm("@-(", ")"), t)
    ensures ModeOf(t) == Some(5)
  {
  }

  lemma ModeRow6(t: seq<char>)
    requires !Matches(IndexedForm("@"), t)
    requires !Matches(IndexedForm(""), t)
    requires !Matches(ValueForm("#"), t)
    requires !Matches(ValueForm("@#"), t)
    requires !Matches(ValueForm("@"), t)
    requires !Matches(RegisterForm("@-(", ")"), t)
    requires Matches(RegisterForm("-(", ")"), t)
    ensures ModeOf(t) == Some(4)
  {
  }

  lemma ModeRow7(t: seq<char>)
    requires !Matches(IndexedForm("@"), t)
    requires !Matches(IndexedForm(""), t)
    requires !Matches(ValueForm("#"), t)
    requires !Matches(ValueForm("@#"), t)
    requires !Matches(ValueForm("@"), t)
    requires !Matches(RegisterForm("@-(", ")"), t)
    requires !Matches(RegisterForm("-(", ")"), t)
    requires Matches(RegisterForm("@(", ")+"), t)
    ensures ModeOf(t) == Some(3)
  {
  }

  lemma ModeRow8(t: seq<char>)
    requires !Matches(IndexedForm("@"), t)
    requires !Matches(IndexedForm(""), t)
    requires !Matches(ValueForm("#"), t)
    requires !Matches(ValueForm("@#"), t)
    requires !Matches(ValueForm("@"), t)
    requires !Matches(RegisterForm("@-(", ")"), t)
    requires !Matches(RegisterForm("-(", ")"), t)
    requires !Matches(RegisterForm("@(", ")+"), t)
    requires Matches(RegisterForm("(", ")+"), t)
    ensures ModeOf(t) == Some(2)
  {
  }

  lemma ModeRow9(t: seq<char>)
    requires !Matches(IndexedForm("@"), t)
    requires !Matches(IndexedForm(""), t)
    requires !Matches(ValueForm("#"), t)
    requires !Matches(ValueForm("@#"), t)
    requires !Matches(ValueForm("@"), t)
    requires !Matches(RegisterForm("@-(", ")"), t)
    requires !Matches(RegisterForm("-(", ")"), t)
    requires !Matches(RegisterForm("@(", ")+"), t)
    requires !Matches(RegisterForm("(", ")+"), t)
    requires Matches(RegisterForm("(", ")"), t)
    ensures ModeOf(t) == Some(1)
  {
  }

  lemma ModeRow10(t: seq<char>)
    requires !Matches(IndexedForm("@"), t)
    requires !Matches(IndexedForm(""), t)
    requires !Matches(ValueForm("#"), t)
    requires !Matches(ValueForm("@#"), t)
    requires !Matches(ValueForm("@"), t)
    requires !Matches(RegisterForm("@-(", ")"), t)
    requires !Matches(RegisterForm("-(", ")"), t)
    requires !Matches(RegisterForm("@(", ")+"), t)
    requires !Matches(RegisterForm("(", ")+"), t)
    requires !Matches(RegisterForm("(", ")"), t)
    requires Matches(RegisterForm("", ""), t)
    ensures ModeOf(t) == Some(0)
  {
  }

  lemma ModeRow11(t: seq<char>)
    requires !Matches(IndexedForm("@"), t)
    requires !Matches(IndexedForm(""), t)
    requires !Matches(ValueForm("#"), t)
    requires !Matches(ValueForm("@#"), t)
    requires !Matches(ValueForm("@"), t)
    requires !Matches(RegisterForm("@-(", ")"), t)
    requires !Matches(RegisterForm("-(", ")"), t)
    requires !Matches(RegisterForm("@(", ")+"), t)
    requires !Matches(RegisterForm("(", ")+"), t)
    requires !Matches(RegisterForm("(", ")"), t)
    requires !Matches(RegisterForm("", ""), t)
    requires Matches(ValueForm(""), t)
    ensures ModeOf(t) == Some(6)
  {
  }

  /** The payload grammar of `recognize_args`: an indexed operand (deferred
      or not), then a register with any leading `@-+(` and trailing `+)`,
      then a value with a leading `@` and `#` stripped. */
  function PayloadOf(t: seq<char>): Option<Payload>
  {
    if Leads(t, '@') && ParseIndexed(t[1..]).Some? then ParseIndexed(t[1..])
    else if ParseIndexed(t).Some? then ParseIndexed(t)
    else RegisterOrValue(t)
  }

  /** The last two alternatives of the payload grammar. */
  function RegisterOrValue(t: seq<char>): Option<Payload>
  {
    var k := Span(t, IsRegisterLead);
    match MatchRegister(t[k..])
    case Some(b) => Some(Reg(t[k..k + b]))
    case None => ParseValue(ValueText(t))
  }

  /** A token that is not indexed, with or without a leading `@`, is a
      register or a value. */
  lemma NotIndexedPayload(t: seq<char>)
    requires !Leads(t, '@') || ParseIndexed(t[1..]) == None
    requires ParseIndexed(t) == None
    ensures PayloadOf(t) == RegisterOrValue(t)
  {
  }

  /** A token with a leading `@` and then a leading `#` removed. */
  function ValueText(t: seq<char>): seq<char>
  {
    var t1 := if Leads(t, '@') then t[1..] else t;
    if Leads(t1, '#') then t1[1..] else t1
  }

  /** A token that is neither indexed nor a register is read as a value. */
  lemma PayloadIsValue(t: seq<char>)
    requires !Leads(t, '@') || ParseIndexed(t[1..]) == None
    requires ParseIndexed(t) == None
    requires MatchRegister(t[Span(t, IsRegisterLead)..]) == None
    ensures PayloadOf(t) == ParseValue(ValueText(t))
  {
    NotIndexedPayload(t);
  }

  /** One operand record of `recognize_args`. A token that either grammar
      rejects raises a parse error. */
  function Classify(t: seq<char>): Result<Operand>
  {
    match PayloadOf(t)
    case None => Err(InvalidOperand(t))
    case Some(p) =>
      match ModeOf(t)
      case None => Err(InvalidOperand(t))
      case Some(m) => Ok(Operand(m, p))
  }

  /** `recognize_args`: one record per token, in token order. */
  function RecognizeArgs(args: seq<seq<char>>): (r: Result<seq<Operand>>)
    ensures r.Ok? ==> (|r.value| == |args| &&
      forall i :: 0 <= i < |args| ==> Classify(args[i]) == Ok(r.value[i]))
    ensures r.Err? <==> exists i :: 0 <= i < |args| && Classify(args[i]).Err?
  {
    Collect(Classify, args)
  }

  // ---------------------------------------------------------------------
  // What each written form classifies as
  // ---------------------------------------------------------------------

  predicate IsNumeral(d: seq<char>) { |d| >= 1 && forall i :: 0 <= i < |d| ==> IsDigit(d[i]) }

  /** A displacement as the source writes it: digits with an optional minus sign. */
  predicate IsShift(d: seq<char>) { IsNumeral(d) || (|d| >= 2 && d[0] == '-' && IsNumeral(d[1..])) }

  predicate IsIdentifier(x: seq<char>)
  {
    |x| >= 1 && IsAlpha(x[0]) && forall i :: 1 <= i < |x| ==> IsNameChar(x[i])
  }

  predicate IsQuoted(x: seq<char>)
  {
    |x| >= 2 && x[0] == '\'' && forall i :: 1 <= i < |x| ==> IsPrintable(x[i])
  }

  /** A whole value token: a constant, a name or an ASCII literal. */
  predicate ValueToken(x: seq<char>) { IsShift(x) || IsIdentifier(x) || IsQuoted(x) }

  /** The payload a value token stands for. */
  function ValuePayload(x: seq<char>): Payload
    requires ValueToken(x)
  {
    if x[0] == '\'' then Symbol(x[1..]) else if IsAlpha(x[0]) then Name(x) else Const(x)
  }

  lemma ShiftMatches(d: seq<char>, rest: seq<char>)
    requires IsShift(d) && (rest == [] || !IsDigit(rest[0]))
    ensures MatchShift(d + rest) == Some(|d|)
  {
    var s := d + rest;
    assert |d| < |s| ==> s[|d|] == rest[0];
    if d[0] == '-' {
      var u := s[1..];
      assert u == d[1..] + rest;
      assert |d| - 1 < |u| ==> u[|d| - 1] == rest[0];
      assert forall i :: 0 <= i < |d| - 1 ==> IsDigit(u[i]);
      assert Span(u, IsDigit) == |d| - 1;
    } else {
      assert forall i :: 0 <= i < |d| ==> IsDigit(s[i]);
      assert Span(s, IsDigit) == |d|;
    }
  }

  lemma ValueParses(x: seq<char>)
    requires ValueToken(x)
    ensures ParseValue(x) == Some(ValuePayload(x))
  {
    if IsShift(x) {
      ConstParses(x);
    } else if IsIdentifier(x) {
      NameParses(x);
    } else {
      SymbolParses(x);
    }
  }

  lemma ConstParses(x: seq<char>)
    requires IsShift(x)
    ensures ParseValue(x) == Some(Const(x))
  {
    ShiftMatches(x, []);
    assert x + [] == x;
    assert !IsAlpha(x[0]) && x[0] != '\'';
    assert MatchConst(x) == Some(|x|);
    assert x[..|x|] == x;
  }

  lemma NameParses(x: seq<char>)
    requires IsIdentifier(x)
    ensures ParseValue(x) == Some(Name(x))
  {
    assert x[0] != '\'' && x[0] != '-' && !IsDigit(x[0]);
    assert Span(x, IsDigit) == 0;
    assert MatchConst(x) == None;
    var tail := x[1..];
    assert forall i :: 0 <= i < |tail| ==> IsNameChar(tail[i]);
    assert Span(tail, IsNameChar) == |tail|;
    assert x[..|x|] == x;
  }

  lemma SymbolParses(x: seq<char>)
    requires IsQuoted(x)
    ensures ParseValue(x) == Some(Symbol(x[1..]))
  {
    var tail := x[1..];
    assert forall i :: 0 <= i < |tail| ==> IsPrintable(tail[i]);
    assert Span(tail, IsPrintable) == |tail|;
    assert MatchSymbol(x) == Some(|x|);
    assert x[1..|x|] == tail;
  }

  /** No displacement starts with a character other than a digit or a minus
      sign followed by a digit. */
  lemma NoIndexedHere(s: seq<char>)
    requires |s| >= 1 && !IsDigit(s[0]) && (s[0] != '-' || |s| < 2 || !IsDigit(s[1]))
    ensures ParseIndexed(s) == None
  {
    if s[0] == '-' {
      assert |s| >= 2 ==> Span(s[1..], IsDigit) == 0;
    } else {
      assert Span(s, IsDigit) == 0;
    }
  }

  lemma NoValueHere(s: seq<char>)
    requires |s| >= 2 && !IsDigit(s[0]) && !IsAlpha(s[0]) && s[0] != '\'' && (s[0] != '-' || !IsDigit(s[1]))
    ensures ParseValue(s) == None
  {
    if s[0] == '-' {
      assert Span(s[1..], IsDigit) == 0;
    } else {
      assert Span(s, IsDigit) == 0;
    }
  }

  /** A register name, whatever follows it. */
  lemma RegisterMatches(r: seq<char>, rest: seq<char>)
    requires RegisterName(r)
    ensures MatchRegister(r + rest) == Some(2)
  {
    var s := r + rest;
    if IsRLetter(r[0]) {
      assert s[1..] == [r[1]] + rest;
      assert Span(s[1..], IsRLetter) == 0;
    } else {
      assert s[..2] == r;
    }
  }

  lemma BracketedRegister(pre: seq<char>, r: seq<char>, post: seq<char>)
    requires RegisterName(r)
    ensures ParseBracketed(pre + r + post, pre, post) == Some(r)
  {
    var t := pre + r + post;
    assert t[..|pre|] == pre;
    assert t[|pre|..] == r + post;
    RegisterMatches(r, post);
    assert (r + post)[2..] == post && (r + post)[..2] == r;
  }

  /** A register not preceded by `@`, `-`, `+` or `(` starts no value and no
      register. */
  lemma NoRegisterHere(s: seq<char>)
    requires |s| > 0 && !IsRLetter(s[0]) && s[0] != 'p' && s[0] != 'P' && s[0] != 's' && s[0] != 'S'
    ensures MatchRegister(s) == None
  {
    assert Span(s, IsRLetter) == 0;
  }

  /** The six register forms take modes 0 to 5 and carry the register. */
  lemma RegisterForms(r: seq<char>)
    requires RegisterName(r)
    ensures Classify(r) == Ok(Operand(0, Reg(r)))
    ensures Classify("(" + r + ")") == Ok(Operand(1, Reg(r)))
    ensures Classify("(" + r + ")+") == Ok(Operand(2, Reg(r)))
    ensures Classify("@(" + r + ")+") == Ok(Operand(3, Reg(r)))
    ensures Classify("-(" + r + ")") == Ok(Operand(4, Reg(r)))
    ensures Classify("@-(" + r + ")") == Ok(Operand(5, Reg(r)))
  {
    RegisterPrefixWins(r, []);
    assert r + [] == r;
    DeferredForm(r);
    AutoIncrementForm(r);
    AutoIncrementDeferredForm(r);
    AutoDecrementForm(r);
    AutoDecrementDeferredForm(r);
  }

  lemma DeferredForm(r: seq<char>)
    requires RegisterName(r)
    ensures Classify("(" + r + ")") == Ok(Operand(1, Reg(r)))
  {
    DeferredMode(r);
    BracketForm(r, "(", ")", 1);
  }

  lemma AutoIncrementForm(r: seq<char>)
    requires RegisterName(r)
    ensures Classify("(" + r + ")+") == Ok(Operand(2, Reg(r)))
  {
    AutoIncrementMode(r);
    BracketForm(r, "(", ")+", 2);
  }

  lemma AutoIncrementDeferredForm(r: seq<char>)
    requires RegisterName(r)
    ensures Classify("@(" + r + ")+") == Ok(Operand(3, Reg(r)))
  {
    AutoIncrementDeferredMode(r);
    BracketForm(r, "@(", ")+", 3);
  }

  lemma AutoDecrementForm(r: seq<char>)
    requires RegisterName(r)
    ensures Classify("-(" + r + ")") == Ok(Operand(4, Reg(r)))
  {
    AutoDecrementMode(r);
    BracketForm(r, "-(", ")", 4);
  }

  lemma AutoDecrementDeferredForm(r: seq<char>)
    requires RegisterName(r)
    ensures Classify("@-(" + r + ")") == Ok(Operand(5, Reg(r)))
  {
    AutoDecrementDeferredMode(r);
    BracketForm(r, "@-(", ")", 5);
  }

  lemma BracketForm(r: seq<char>, pre: seq<char>, post: seq<char>, m: Mode)
    requires RegisterName(r) && RegisterLeader(pre) && ModeOf(pre + r + post) == Some(m)
    ensures Classify(pre + r + post) == Ok(Operand(m, Reg(r)))
  {
    BracketPayload(r, pre, post);
    Classified(pre + r + post, m, Reg(r));
  }

  /** A token that begins with a register name is that register in mode 0,
      whatever follows it: `R3x` and `spam` are both registers. */
  lemma RegisterPrefixWins(r: seq<char>, rest: seq<char>)
    requires RegisterName(r)
    ensures Classify(r + rest) == Ok(Operand(0, Reg(r)))
  {
    BarePayload(r, rest);
    BareMode(r, rest);
  }

  lemma BarePayload(r: seq<char>, rest: seq<char>)
    requires RegisterName(r)
    ensures PayloadOf(r + rest) == Some(Reg(r))
  {
    var t := r + rest;
    RegisterMatches(r, rest);
    assert t[0..] == t && t[..2] == r;
    assert Span(t, IsRegisterLead) == 0;
    NoIndexedHere(t);
    RegisterPayload(t, 0, 2);
  }

  lemma BareMode(r: seq<char>, rest: seq<char>)
    requires RegisterName(r)
    ensures ModeOf(r + rest) == Some(0)
  {
    var t := r + rest;
    assert t[0] != '@' && t[0] != '#' && t[0] != '(' && t[0] != '-';
    NoIndexedHere(t);
    NoPrefixNoMatch(IndexedForm("@"), t);
    NoPrefixNoMatch(ValueForm("#"), t);
    NoPrefixNoMatch(ValueForm("@#"), t);
    NoPrefixNoMatch(ValueForm("@"), t);
    NoPrefixNoMatch(RegisterForm("@-(", ")"), t);
    NoPrefixNoMatch(RegisterForm("-(", ")"), t);
    NoPrefixNoMatch(RegisterForm("@(", ")+"), t);
    NoPrefixNoMatch(RegisterForm("(", ")+"), t);
    NoPrefixNoMatch(RegisterForm("(", ")"), t);
    RegisterMatches(r, rest);
    assert t[0..] == t;
    ModeRow10(t);
  }

  /** A pattern whose prefix the token lacks does not match it. */
  lemma NoPrefixNoMatch(p: Pattern, t: seq<char>)
    requires |p.prefix| > 0 && |t| > 0 && t[0] != p.prefix[0]
    ensures !Matches(p, t)
  {
  }

  lemma DeferredMode(r: seq<char>)
    requires RegisterName(r)
    ensures ModeOf("(" + r + ")") == Some(1)
  {
    var t := "(" + r + ")";
    LeadersReject(t);
    NoPrefixNoMatch(ValueForm("#"), t);
    NoPrefixNoMatch(ValueForm("@#"), t);
    NoPrefixNoMatch(RegisterForm("@-(", ")"), t);
    NoPrefixNoMatch(RegisterForm("-(", ")"), t);
    NoPrefixNoMatch(RegisterForm("@(", ")+"), t);
    assert !Matches(RegisterForm("(", ")+"), t) by {
      assert t[1..] == r + ")";
      RegisterMatches(r, ")");
      assert (r + ")")[2..] == ")";
    }
    BracketedRegister("(", r, ")");
    ModeRow9(t);
  }

  lemma AutoIncrementMode(r: seq<char>)
    requires RegisterName(r)
    ensures ModeOf("(" + r + ")+") == Some(2)
  {
    var t := "(" + r + ")+";
    LeadersReject(t);
    NoPrefixNoMatch(ValueForm("#"), t);
    NoPrefixNoMatch(ValueForm("@#"), t);
    NoPrefixNoMatch(RegisterForm("@-(", ")"), t);
    NoPrefixNoMatch(RegisterForm("-(", ")"), t);
    NoPrefixNoMatch(RegisterForm("@(", ")+"), t);
    BracketedRegister("(", r, ")+");
    ModeRow8(t);
  }

  lemma AutoIncrementDeferredMode(r: seq<char>)
    requires RegisterName(r)
    ensures ModeOf("@(" + r + ")+") == Some(3)
  {
    var t := "@(" + r + ")+";
    LeadersReject(t);
    NoPrefixOrSecond(ValueForm("#"), t);
    NoPrefixOrSecond(ValueForm("@#"), t);
    NoPrefixOrSecond(RegisterForm("@-(", ")"), t);
    NoPrefixOrSecond(RegisterForm("-(", ")"), t);
    BracketedRegister("@(", r, ")+");
    ModeRow7(t);
  }

  lemma AutoDecrementMode(r: seq<char>)
    requires RegisterName(r)
    ensures ModeOf("-(" + r + ")") == Some(4)
  {
    var t := "-(" + r + ")";
    LeadersReject(t);
    NoPrefixNoMatch(ValueForm("#"), t);
    NoPrefixNoMatch(ValueForm("@#"), t);
    NoPrefixNoMatch(RegisterForm("@-(", ")"), t);
    BracketedRegister("-(", r, ")");
    ModeRow6(t);
  }

  lemma AutoDecrementDeferredMode(r: seq<char>)
    requires RegisterName(r)
    ensures ModeOf("@-(" + r + ")") == Some(5)
  {
    var t := "@-(" + r + ")";
    LeadersReject(t);
    NoPrefixOrSecond(ValueForm("#"), t);
    NoPrefixOrSecond(ValueForm("@#"), t);
    BracketedRegister("@-(", r, ")");
    ModeRow5(t);
  }

  /** A pattern whose prefix disagrees with the token's first two characters does not match it. */
  lemma NoPrefixOrSecond(p: Pattern, t: seq<char>)
    requires |p.prefix| > 0 && |t| > 0
    requires t[0] != p.prefix[0] || (|p.prefix| > 1 && |t| > 1 && t[1] != p.prefix[1])
    ensures !Matches(p, t)
  {
  }

  /** A token led by `(`, `-(`, `@(` or `@-(` is neither indexed nor a deferred value. */
  lemma LeadersReject(t: seq<char>)
    requires |t| >= 3 && (t[..1] == "(" || t[..2] == "-(" || t[..2] == "@(" || t[..3] == "@-(")
    ensures !Matches(IndexedForm("@"), t) && !Matches(IndexedForm(""), t) && !Matches(ValueForm("@"), t)
  {
    NoIndexedHere(t);
    if t[0] == '@' {
      NoIndexedHere(t[1..]);
      NoValueHere(t[1..]);
    }
  }

  /** `pre` consists of characters that may lead a register and ends with
      an opening bracket. */
  predicate RegisterLeader(pre: seq<char>)
  {
    |pre| > 0 && pre[|pre| - 1] == '(' && forall i :: 0 <= i < |pre| ==> IsRegisterLead(pre[i])
  }

  lemma SpanStops(a: seq<char>, b: seq<char>, p: char -> bool)
    requires forall i :: 0 <= i < |a| ==> p(a[i])
    requires |b| > 0 && !p(b[0])
    ensures Span(a + b, p) == |a|
  {
    var s := a + b;
    assert forall i :: 0 <= i < |a| ==> p(s[i]);
    assert s[|a|] == b[0];
  }

  lemma BracketPayload(r: seq<char>, pre: seq<char>, post: seq<char>)
    requires RegisterName(r) && RegisterLeader(pre)
    ensures PayloadOf(pre + r + post) == Some(Reg(r))
  {
    var rest := r + post;
    var t := pre + rest;
    assert t == pre + r + post;
    BracketNotIndexed(pre, rest);
    SpanStops(pre, rest, IsRegisterLead);
    RegisterMatches(r, post);
    assert t[|pre|..] == rest;
    RegisterPayload(t, |pre|, 2);
    assert t[|pre|..|pre| + 2] == rest[..2] == r;
  }

  /** A token led by a register leader is not indexed, with or without its `@`. */
  lemma BracketNotIndexed(pre: seq<char>, rest: seq<char>)
    requires RegisterLeader(pre) && |rest| > 0 && !IsDigit(rest[0])
    ensures ParseIndexed(pre + rest) == None
    ensures Leads(pre + rest, '@') ==> ParseIndexed((pre + rest)[1..]) == None
  {
    var t := pre + rest;
    assert forall i :: 0 <= i < |pre| ==> t[i] == pre[i];
    assert t[|pre|] == rest[0];
    assert forall i :: 0 <= i < |t| && i <= |pre| ==> !IsDigit(t[i]);
    NoIndexedHere(t);
    if t[0] == '@' {
      var u := t[1..];
      assert u[0] == t[1];
      assert |u| >= 2 ==> u[1] == t[2];
      NoIndexedHere(u);
    }
  }

  /** A token that is not indexed and holds a register after its leading
      `@-+(` characters carries that register. */
  lemma RegisterPayload(t: seq<char>, k: nat, b: nat)
    requires ParseIndexed(t) == None && (Leads(t, '@') ==> ParseIndexed(t[1..]) == None)
    requires k == Span(t, IsRegisterLead) && MatchRegister(t[k..]) == Some(b)
    ensures PayloadOf(t) == Some(Reg(t[k..k + b]))
  {
    NotIndexedPayload(t);
    RegisterAfterLeads(t, k, b);
  }

  lemma RegisterAfterLeads(t: seq<char>, k: nat, b: nat)
    requires k == Span(t, IsRegisterLead) && MatchRegister(t[k..]) == Some(b)
    ensures RegisterOrValue(t) == Some(Reg(t[k..k + b]))
  {
  }

  lemma IndexParses(d: seq<char>, r: seq<char>, rest: seq<char>)
    requires IsShift(d) && RegisterName(r)
    ensures ParseIndexed(d + "(" + r + ")" + rest) == Some(Indexed(d, r))
  {
    var tail := "(" + r + ")" + rest;
    var s := d + tail;
    assert s == d + "(" + r + ")" + rest;
    var a := |d|;
    ShiftMatches(d, tail);
    IndexShape(d, r, rest);
    RegisterMatches(r, ")" + rest);
    assert s[a + 1..a + 3] == s[a + 1..][..2] == r;
    IndexedAt(s, a, 2);
  }

  lemma IndexShape(d: seq<char>, r: seq<char>, rest: seq<char>)
    requires |r| == 2
    ensures var s := d + ("(" + r + ")" + rest);
      |d| + 3 < |s| && s[|d|] == '(' && s[|d| + 3] == ')' &&
      s[..|d|] == d && s[|d| + 1..] == r + (")" + rest)
  {
    var tail := "(" + r + ")" + rest;
    var s := d + tail;
    assert s[|d|..] == tail;
    assert tail[1..] == r + (")" + rest);
  }

  lemma IndexedAt(s: seq<char>, a: nat, b: nat)
    requires MatchShift(s) == Some(a) && a < |s| && s[a] == '('
    requires MatchRegister(s[a + 1..]) == Some(b) && a + 1 + b < |s| && s[a + 1 + b] == ')'
    ensures ParseIndexed(s) == Some(Indexed(s[..a], s[a + 1..a + 1 + b]))
  {
    var tail := s[a + 1..];
    assert MatchRegister(tail) == Some(b);
  }

  /** Index mode: a displacement and a bracketed register take mode 6,
      and mode 7 behind `@`. */
  lemma IndexForms(d: seq<char>, r: seq<char>)
    requires IsShift(d) && RegisterName(r)
    ensures Classify(d + "(" + r + ")") == Ok(Operand(6, Indexed(d, r)))
    ensures Classify("@" + d + "(" + r + ")") == Ok(Operand(7, Indexed(d, r)))
  {
    IndexForm(d, r);
    IndexDeferredForm(d, r);
  }

  lemma IndexForm(d: seq<char>, r: seq<char>)
    requires IsShift(d) && RegisterName(r)
    ensures Classify(d + "(" + r + ")") == Ok(Operand(6, Indexed(d, r)))
  {
    var t := d + "(" + r + ")";
    IndexParses(d, r, []);
    assert t + [] == t;
    IndexPayload(t);
    IndexMode(t);
    Classified(t, 6, Indexed(d, r));
  }

  lemma IndexDeferredForm(d: seq<char>, r: seq<char>)
    requires IsShift(d) && RegisterName(r)
    ensures Classify("@" + d + "(" + r + ")") == Ok(Operand(7, Indexed(d, r)))
  {
    var t := d + "(" + r + ")";
    IndexParses(d, r, []);
    assert t + [] == t;
    var u := "@" + d + "(" + r + ")";
    AtTail(d, "(", r, ")");
    IndexDeferredPayload(u);
    IndexDeferredMode(u);
    Classified(u, 7, Indexed(d, r));
  }

  lemma AtTail(a: seq<char>, b: seq<char>, c: seq<char>, e: seq<char>)
    ensures ("@" + a + b + c + e)[1..] == a + b + c + e
  {
  }

  lemma Classified(t: seq<char>, m: Mode, p: Payload)
    requires PayloadOf(t) == Some(p) && ModeOf(t) == Some(m)
    ensures Classify(t) == Ok(Operand(m, p))
  {
  }

  lemma IndexPayload(t: seq<char>)
    requires ParseIndexed(t).Some? && |t| > 0 && t[0] != '@'
    ensures PayloadOf(t) == ParseIndexed(t)
  {
  }

  lemma IndexMode(t: seq<char>)
    requires ParseIndexed(t).Some? && |t| > 0 && t[0] != '@'
    ensures ModeOf(t) == Some(6)
  {
    NoPrefixNoMatch(IndexedForm("@"), t);
    assert t[0..] == t;
    ModeRow1(t);
  }

  lemma IndexDeferredPayload(u: seq<char>)
    requires |u| > 0 && u[0] == '@' && ParseIndexed(u[1..]).Some?
    ensures PayloadOf(u) == ParseIndexed(u[1..])
  {
    assert Leads(u, '@');
  }

  lemma IndexDeferredMode(u: seq<char>)
    requires |u| > 0 && u[0] == '@' && ParseIndexed(u[1..]).Some?
    ensures ModeOf(u) == Some(7)
  {
    assert Leads(u, '@');
    ModeRow0(u);
  }

  /** A value token starts no displacement and no register except through a
      name that begins like one. */
  lemma ValueNotIndexed(x: seq<char>)
    requires ValueToken(x)
    ensures ParseIndexed(x) == None
  {
    if IsShift(x) {
      ShiftMatches(x, []);
      assert x + [] == x;
    } else {
      NoIndexedHere(x);
    }
  }

  /** Immediate and absolute modes: `#x` is mode 2 and `@#x` mode 3, for any
      value `x`, register-like names included. */
  lemma ImmediateForms(x: seq<char>)
    requires ValueToken(x)
    ensures Classify("#" + x) == Ok(Operand(2, ValuePayload(x)))
    ensures Classify("@#" + x) == Ok(Operand(3, ValuePayload(x)))
  {
    ImmediatePayload(x);
    ImmediateMode(x);
    AbsolutePayload(x);
    AbsoluteMode(x);
  }

  lemma ImmediatePayload(x: seq<char>)
    requires ValueToken(x)
    ensures PayloadOf("#" + x) == ParseValue(x) == Some(ValuePayload(x))
  {
    ValueParses(x);
    var t := "#" + x;
    assert t[1..] == x;
    NoIndexedHere(t);
    NoRegisterHere(t);
    assert Span(t, IsRegisterLead) == 0;
    assert t[0..] == t;
  }

  lemma ImmediateMode(x: seq<char>)
    requires ValueToken(x)
    ensures ModeOf("#" + x) == Some(2)
  {
    ValueParses(x);
    var t := "#" + x;
    assert t[1..] == x;
    NoIndexedHere(t);
    assert t[0..] == t;
    NoPrefixNoMatch(IndexedForm("@"), t);
    ModeRow2(t);
  }

  lemma AbsolutePayload(x: seq<char>)
    requires ValueToken(x)
    ensures PayloadOf("@#" + x) == Some(ValuePayload(x))
  {
    ValueParses(x);
    var u := "@#" + x;
    assert u[1..] == "#" + x && u[2..] == x;
    NoIndexedHere(u);
    NoIndexedHere(u[1..]);
    assert Span(u, IsRegisterLead) == 1 by {
      assert u[0] == '@' && u[1] == '#';
    }
    NoRegisterHere(u[1..]);
  }

  lemma AbsoluteMode(x: seq<char>)
    requires ValueToken(x)
    ensures ModeOf("@#" + x) == Some(3)
  {
    ValueParses(x);
    var u := "@#" + x;
    assert u[1..] == "#" + x && u[2..] == x;
    NoIndexedHere(u);
    NoIndexedHere(u[1..]);
    NoPrefixNoMatch(ValueForm("#"), u);
    ModeRow3(u);
  }

  /** Relative-deferred mode: `@x` is mode 7 for a value `x` that does not
      begin like a register. */
  lemma DeferredValueForm(x: seq<char>)
    requires ValueToken(x) && MatchRegister(x) == None
    ensures Classify("@" + x) == Ok(Operand(7, ValuePayload(x)))
  {
    DeferredValuePayload(x);
    DeferredValueMode(x);
  }

  lemma DeferredValuePayload(x: seq<char>)
    requires ValueToken(x) && MatchRegister(x) == None
    ensures PayloadOf("@" + x) == Some(ValuePayload(x))
  {
    var t := "@" + x;
    DeferredValueShape(x);
    ValueNotIndexed(x);
    NoIndexedHere(t);
    PayloadIsValue(t);
    ValueParses(x);
  }

  lemma DeferredValueShape(x: seq<char>)
    requires ValueToken(x) && MatchRegister(x) == None
    ensures var t := "@" + x; (t[1..] == x && ValueText(t) == x &&
      MatchRegister(t[Span(t, IsRegisterLead)..]) == None)
  {
    var t := "@" + x;
    assert t[1..] == x;
    ValueRegisterFree(x);
    var k := Span(x, IsRegisterLead);
    assert Span(t, IsRegisterLead) == 1 + k by {
      assert t[0] == '@';
    }
    assert t[1 + k..] == x[k..];
    assert x[0] != '#';
  }

  lemma DeferredValueMode(x: seq<char>)
    requires ValueToken(x) && MatchRegister(x) == None
    ensures ModeOf("@" + x) == Some(7)
  {
    ValueParses(x);
    ValueNotIndexed(x);
    var t := "@" + x;
    assert t[1..] == x;
    NoIndexedHere(t);
    assert x[0] != '#';
    NoPrefixNoMatch(ValueForm("#"), t);
    NoPrefixOrSecond(ValueForm("@#"), t);
    ModeRow4(t);
  }

  /** After its leading `@-+(` characters a value token is not a register. */
  lemma ValueRegisterFree(x: seq<char>)
    requires ValueToken(x) && MatchRegister(x) == None
    ensures MatchRegister(x[Span(x, IsRegisterLead)..]) == None
  {
    if x[0] == '-' {
      assert Span(x[1..], IsRegisterLead) == 0;
      NoRegisterHere(x[1..]);
    } else {
      assert Span(x, IsRegisterLead) == 0;
      assert x[0..] == x;
    }
  }

  /** Relative mode: a bare value that does not begin like a register is
      mode 6. */
  lemma RelativeForm(x: seq<char>)
    requires ValueToken(x) && MatchRegister(x) == None
    ensures Classify(x) == Ok(Operand(6, ValuePayload(x)))
  {
    RelativePayload(x);
    RelativeMode(x);
  }

  lemma RelativePayload(x: seq<char>)
    requires ValueToken(x) && MatchRegister(x) == None
    ensures PayloadOf(x) == Some(ValuePayload(x))
  {
    ValueParses(x);
    ValueNotIndexed(x);
    ValueRegisterFree(x);
    ValueLead(x);
    PlainValuePayload(x);
  }

  /** A value token begins with a digit, a minus sign, a letter or a quote. */
  lemma ValueLead(x: seq<char>)
    requires ValueToken(x)
    ensures IsDigit(x[0]) || x[0] == '-' || IsAlpha(x[0]) || x[0] == '\''
  {
    if IsShift(x) && !IsNumeral(x) {
      assert x[0] == '-';
    }
  }

  lemma PlainValuePayload(t: seq<char>)
    requires |t| > 0 && t[0] != '@' && t[0] != '#' && ParseIndexed(t) == None
    requires MatchRegister(t[Span(t, IsRegisterLead)..]) == None
    ensures PayloadOf(t) == ParseValue(t)
  {
    assert ValueText(t) == t;
    PayloadIsValue(t);
  }

  lemma RelativeMode(x: seq<char>)
    requires ValueToken(x) && MatchRegister(x) == None
    ensures ModeOf(x) == Some(6)
  {
    ValueParses(x);
    ValueNotIndexed(x);
    assert x[0..] == x;
    assert x[0] != '@' && x[0] != '#' && x[0] != '(';
    NoPrefixNoMatch(IndexedForm("@"), x);
    NoPrefixNoMatch(ValueForm("#"), x);
    NoPrefixNoMatch(ValueForm("@#"), x);
    NoPrefixNoMatch(ValueForm("@"), x);
    NoPrefixOrSecond(RegisterForm("@-(", ")"), x);
    NoPrefixOrSecond(RegisterForm("-(", ")"), x);
    NoPrefixNoMatch(RegisterForm("@(", ")+"), x);
    NoPrefixNoMatch(RegisterForm("(", ")+"), x);
    NoPrefixNoMatch(RegisterForm("(", ")"), x);
    ModeRow11(x);
  }

  // ---------------------------------------------------------------------
  // code_arg
  // ---------------------------------------------------------------------

  /** The register number `code_arg` reads from a register text: `sp`/`SP`
      is 6, `pc`/`PC` is 7, and `r`/`R` followed by octal digits is those
      digits read in decimal. A number above 7 would not fit the 3-bit
      field and is refused. */
  function RegisterCode(reg: seq<char>): (r: Result<nat>)
    ensures r.Ok? ==> r.value < 8
  {
    if StartsWith(reg, "sp") || StartsWith(reg, "SP") then Ok(6)
    else if StartsWith(reg, "pc") || StartsWith(reg, "PC") then Ok(7)
    else if |reg| >= 1 && IsRLetter(reg[0]) && Span(reg[1..], IsOctDigit) >= 1 then
      var d := reg[1..1 + Span(reg[1..], IsOctDigit)];
      assert AllDigits(d, 10);
      var v := DigitsValue(d, 10);
      if v < 8 then Ok(v) else Err(OutOfRange(v))
    else Err(BadRegister(reg))
  }

  /** The register decoded by `code_arg`: names R0-R7 (either case), PC, pc, SP, sp. */
  predicate RegisterName(r: seq<char>)
  {
    (|r| == 2 && IsRLetter(r[0]) && IsOctDigit(r[1])) || r == "pc" || r == "PC" || r == "sp" || r == "SP"
  }

  /** The register number of each register name. */
  function RegisterNumber(r: seq<char>): nat
    requires RegisterName(r)
  {
    if r == "pc" || r == "PC" then 7 else if r == "sp" || r == "SP" then 6 else r[1] as int - '0' as int
  }

  lemma RegisterCodeOfName(r: seq<char>)
    requires RegisterName(r)
    ensures RegisterCode(r) == Ok(RegisterNumber(r))
  {
    if |r| == 2 && IsRLetter(r[0]) && IsOctDigit(r[1]) {
      var tail := r[1..];
      assert tail == [r[1]];
      assert Span(tail[1..], IsOctDigit) == 0;
      assert Span(tail, IsOctDigit) == 1;
      var d := r[1..2];
      assert d == [r[1]] && d[..0] == [];
      assert DigitsValue(d, 10) == CharValue(r[1]);
      assert r[..2] != "sp" && r[..2] != "SP" && r[..2] != "pc" && r[..2] != "PC";
    }
  }

  /** A mode field followed by the 3-bit code of register `reg`. */
  function WithRegister(mode: Mode, reg: seq<char>): (r: Result<seq<char>>)
    ensures r.Ok? <==> RegisterCode(reg).Ok?
    ensures r.Ok? ==> (|r.value| == 6 && IsBits(r.value) &&
      BitsValue(r.value) == 8 * mode + RegisterCode(reg).value)
  {
    match RegisterCode(reg)
    case Err(e) => Err(e)
    case Ok(c) => FieldPair(mode, c); Ok(NatBits(mode, 3) + NatBits(c, 3))
  }

  /** `code_arg`: three mode bits then three register bits; constants and
      ASCII literals use register 7 (the program counter); an operand that
      still holds only an unresolved name is the placeholder 000000. */
  function CodeArg(op: Operand): (r: Result<seq<char>>)
    ensures r.Ok? ==> |r.value| == 6 && IsBits(r.value)
    ensures op.payload.Name? ==> r == Ok(Zeros(6))
    ensures (op.payload.Const? || op.payload.Symbol? || op.payload.NameRef?) ==>
      r.Ok? && BitsValue(r.value) == 8 * op.mode + 7
    ensures (op.payload.Reg? || op.payload.Indexed?) ==>
      (r.Ok? <==> RegisterCode(op.payload.reg).Ok?) &&
      (r.Ok? ==> BitsValue(r.value) == 8 * op.mode + RegisterCode(op.payload.reg).value)
  {
    match op.payload
    case Name(_) => Ok(Zeros(6))
    case Reg(reg) => WithRegister(op.mode, reg)
    case Indexed(_, reg) => WithRegister(op.mode, reg)
    case _ => FieldPair(op.mode, 7); Ok(NatBits(op.mode, 3) + NatBits(7, 3))
  }

  // ---------------------------------------------------------------------
  // get_ascii_text
  // ---------------------------------------------------------------------

  predicate OccursAt(text: seq<char>, pat: seq<char>, j: nat)
  {
    j + |pat| <= |text| && text[j..j + |pat|] == pat
  }

  /** Python's `text.find(pat)`: the first index of `pat`, or -1. */
  function Find(text: seq<char>, pat: seq<char>): (i: int)
    ensures -1 <= i <= |text|
    ensures i >= 0 ==> OccursAt(text, pat, i) && forall j: nat :: j < i ==> !OccursAt(text, pat, j)
    ensures i < 0 ==> forall j: nat :: !OccursAt(text, pat, j)
  {
    if StartsWith(text, pat) then 0
    else if text == [] then -1
    else
      var k := Find(text[1..], pat);
      assert forall j: nat :: 1 <= j ==> (OccursAt(text, pat, j) <==> OccursAt(text[1..], pat, j - 1)) by {
        forall j: nat | 1 <= j ensures OccursAt(text, pat, j) <==> OccursAt(text[1..], pat, j - 1) {
          OccursAfterFirst(text, pat, j);
        }
      }
      if k < 0 then -1 else k + 1
  }

  lemma OccursAfterFirst(text: seq<char>, pat: seq<char>, j: nat)
    requires 1 <= j && |text| > 0
    ensures OccursAt(text, pat, j) <==> OccursAt(text[1..], pat, j - 1)
  {
    if j + |pat| <= |text| {
      var tail := text[1..];
      assert text[j..j + |pat|] == tail[j - 1..j - 1 + |pat|];
    }
  }

  /** The text that `get_ascii_text` searches: what follows the first
      occurrence of the directive name, with leading blanks skipped. */
  function StringArea(name: seq<char>, text: seq<char>): seq<char>
  {
    var start := Find(text, name) + |name|;
    var rest := if 0 <= start <= |text| then text[start..] else [];
    rest[Span(rest, IsWhite)..]
  }

  /** `get_ascii_text`: the characters strictly between the first character
      of the string area (the delimiter, any non-blank character) and that
      character's next occurrence on the line. */
  function AsciiText(name: seq<char>, text: seq<char>): (r: Result<seq<char>>)
    ensures var area := StringArea(name, text);
      r.Ok? <==> |area| > 0 && exists j :: 1 <= j < |area| && area[j] == area[0] && '\n' !in area[1..j]
    ensures var area := StringArea(name, text);
      r.Ok? ==> (|r.value| + 1 < |area| && area[1..|r.value| + 1] == r.value &&
        area[|r.value| + 1] == area[0] && area[0] !in r.value && '\n' !in r.value)
  {
    var area := StringArea(name, text);
    if area == [] then Err(UnterminatedString)
    else
      var body := area[1..];
      var j := Unquoted(body, area[0]);
      if j < |body| && body[j] == area[0] then
        ClosedAt(area, j);
        Ok(body[..j])
      else
        NeverClosed(area, j);
        Err(UnterminatedString)
  }

  /** How many characters of `body` precede the first delimiter `d` or line end. */
  function Unquoted(body: seq<char>, d: char): (n: nat)
    ensures n <= |body|
    ensures forall i :: 0 <= i < n ==> body[i] != d && body[i] != '\n'
    ensures n < |body| ==> body[n] == d || body[n] == '\n'
  {
    Span(body, c => c != d && c != '\n')
  }

  lemma ClosedAt(area: seq<char>, j: nat)
    requires 0 < |area| && j == Unquoted(area[1..], area[0]) && j < |area| - 1 && area[j + 1] == area[0]
    ensures area[1..][..j] == area[1..j + 1]
    ensures area[0] !in area[1..j + 1] && '\n' !in area[1..j + 1]
  {
    var body := area[1..];
    assert forall i :: 0 <= i < j ==> area[1..j + 1][i] == body[i];
  }

  lemma NeverClosed(area: seq<char>, j: nat)
    requires 0 < |area| && j == Unquoted(area[1..], area[0])
    requires !(j < |area| - 1 && area[j + 1] == area[0])
    ensures !exists k :: 1 <= k < |area| && area[k] == area[0] && '\n' !in area[1..k]
  {
    var body := area[1..];
    forall k | 1 <= k < |area| && area[k] == area[0] ensures '\n' in area[1..k] {
      assert body[k - 1] == area[k];
      assert k - 1 > j;
      assert body[j] == '\n';
      assert area[1..k][j] == body[j];
    }
  }
}
