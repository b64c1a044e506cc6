/** Number rendering used by the assembler: the class methods `bin`, `oct`,
    `bin2oct` and `bin2hex` of `PDP11_Parser`, Python's `int(text, base)`
    and `oct(n)[2:]`, and the hexadecimal text of the object file. Bit strings
    are sequences of the characters '0' and '1', most significant bit first,
    exactly as the assembler keeps its words. */
module Conversions {
  import opened Errors

  // ---------------------------------------------------------------------
  // Bit strings
  // ---------------------------------------------------------------------

  predicate IsBit(c: char) { c == '0' || c == '1' }

  predicate IsBits(s: seq<char>) { forall i :: 0 <= i < |s| ==> IsBit(s[i]) }

  /** A word (16 bits) or a byte (8 bits), the only items the assembler emits. */
  predicate IsItem(s: seq<char>) { IsBits(s) && (|s| == 16 || |s| == 8) }

  function Pow2(w: nat): (r: nat)
    ensures r >= 1
  {
    if w == 0 then 1 else 2 * Pow2(w - 1)
  }

  function BitValue(c: char): nat { if c == '1' then 1 else 0 }

  /** The unsigned value of a bit string. */
  function BitsValue(s: seq<char>): (v: nat)
    ensures v < Pow2(|s|)
  {
    if s == [] then 0 else 2 * BitsValue(s[..|s| - 1]) + BitValue(s[|s| - 1])
  }

  /** The value of a bit string read as a two's-complement number. */
  function SignedValue(s: seq<char>): int
  {
    if |s| > 0 && s[0] == '1' then BitsValue(s) - Pow2(|s|) else BitsValue(s)
  }

  function Zeros(k: nat): (r: seq<char>)
    ensures |r| == k && IsBits(r) && BitsValue(r) == 0
    ensures forall i :: 0 <= i < k ==> r[i] == '0'
  {
    if k == 0 then [] else
      var p := Zeros(k - 1);
      var r := p + ['0'];
      assert r[..k - 1] == p && r[k - 1] == '0';
      assert BitsValue(r) == 2 * BitsValue(p) + BitValue('0');
      r
  }

  /** The `w` binary digits of `n`, zero padded: Python's `f"{n:0{w}b}"`
      for a value that fits. */
  function NatBits(n: nat, w: nat): (r: seq<char>)
    requires n < Pow2(w)
    ensures |r| == w && IsBits(r) && BitsValue(r) == n
  {
    if w == 0 then [] else
      var r := NatBits(n / 2, w - 1) + [if n % 2 == 1 then '1' else '0'];
      assert r[..w - 1] == NatBits(n / 2, w - 1);
      r
  }

  /** Whether `bin(n, w)` yields exactly `w` binary digits: non-negative
      values below 2^w, negative values down to -2^(w-1). */
  predicate FitsBin(n: int, w: nat) { -((Pow2(w) / 2) as int) <= n < Pow2(w) }

  /** The unsigned number `bin` writes for `n`: `n` itself, or `(1 << w) + n`. */
  function Unsigned(n: int, w: nat): int { if n >= 0 then n else Pow2(w) + n }

  /** The class method `bin(number, width)` on the range where it yields
      `width` digits. */
  function Bin(n: int, w: nat): (r: seq<char>)
    requires FitsBin(n, w)
    ensures |r| == w && IsBits(r)
    ensures BitsValue(r) == Unsigned(n, w)
  {
    NatBits(Unsigned(n, w), w)
  }

  /** `bin` used for a field of the opcode word: outside `FitsBin` the
      original writes a field of the wrong width; the model fails instead. */
  function BinField(n: int, w: nat): (r: Result<seq<char>>)
    ensures r.Ok? <==> FitsBin(n, w)
    ensures r.Ok? ==> |r.value| == w && IsBits(r.value) && BitsValue(r.value) == Unsigned(n, w)
  {
    if FitsBin(n, w) then Ok(Bin(n, w)) else Err(OutOfRange(n))
  }

  /** `f"{n:0{w}b}"` for an already non-negative value; a value that does
      not fit in `w` bits fails. */
  function FormatBits(n: int, w: nat): (r: Result<seq<char>>)
    ensures r.Ok? <==> 0 <= n < Pow2(w)
    ensures r.Ok? ==> |r.value| == w && IsBits(r.value) && BitsValue(r.value) == n
  {
    if 0 <= n < Pow2(w) then Ok(NatBits(n, w)) else Err(OutOfRange(n))
  }

  lemma {:induction false} BitsValueSplit(a: seq<char>, b: seq<char>)
    ensures BitsValue(a + b) == BitsValue(a) * Pow2(|b|) + BitsValue(b)
    decreases |b|
  {
    if b == [] {
      assert a + b == a;
    } else {
      var b' := b[..|b| - 1];
      assert (a + b)[..|a + b| - 1] == a + b';
      assert (a + b)[|a + b| - 1] == b[|b| - 1];
      BitsValueSplit(a, b');
      var x, p, y, c := BitsValue(a), Pow2(|b'|), BitsValue(b'), BitValue(b[|b| - 1]);
      assert BitsValue(a + b) == 2 * (x * p + y) + c;
      assert BitsValue(b) == 2 * y + c;
      assert Pow2(|b|) == 2 * p;
      TwiceProduct(x, p);
    }
  }

  /** A 3-bit mode field followed by a 3-bit register field. */
  lemma FieldPair(m: nat, c: nat)
    requires m < 8 && c < 8
    ensures Pow2(3) == 8
    ensures |NatBits(m, 3) + NatBits(c, 3)| == 6 && IsBits(NatBits(m, 3) + NatBits(c, 3))
    ensures BitsValue(NatBits(m, 3) + NatBits(c, 3)) == 8 * m + c
  {
    assert Pow2(3) == 8;
    var a, b := NatBits(m, 3), NatBits(c, 3);
    BitsValueSplit(a, b);
    assert BitsValue(a + b) == BitsValue(a) * 8 + BitsValue(b);
    assert forall i :: 0 <= i < 6 ==> (a + b)[i] == if i < 3 then a[i] else b[i - 3];
  }

  lemma TwiceProduct(x: int, p: int)
    ensures 2 * (x * p) == x * (2 * p)
  {
  }

  /** The binary digits of a bit string are determined by its value and
      width: rendering the value again gives the string back. */
  lemma {:induction false} BitsRoundTrip(s: seq<char>)
    requires IsBits(s)
    ensures NatBits(BitsValue(s), |s|) == s
  {
    if s != [] {
      var p := s[..|s| - 1];
      BitsRoundTrip(p);
      assert BitsValue(s) / 2 == BitsValue(p);
      assert s == p + [s[|s| - 1]];
    }
  }

  /** `bin` is two's-complement encoding: reading its digits back as a
      signed number gives the number that was written. */
  lemma BinSignedRoundTrip(n: int, w: nat)
    requires w > 0 && -(Pow2(w - 1) as int) <= n < Pow2(w - 1)
    ensures FitsBin(n, w)
    ensures SignedValue(Bin(n, w)) == n
  {
    var r := Bin(n, w);
    var h := Pow2(w - 1);
    assert Pow2(w) == 2 * h;
    assert BitsValue(r) == BitValue(r[0]) * h + BitsValue(r[1..]) by {
      BitsValueSplit([r[0]], r[1..]);
      assert [r[0]] + r[1..] == r;
      assert [r[0]][..0] == [];
    }
    assert BitsValue(r[1..]) < h;
  }

  /** A leading zero does not change the value of a bit string. */
  lemma {:induction false} LeadingZeroBits(s: seq<char>)
    ensures BitsValue(['0'] + s) == BitsValue(s)
  {
    BitsValueSplit(['0'], s);
    assert BitsValue(['0']) == 0 by { assert ['0'][..0] == []; }
  }

  // ---------------------------------------------------------------------
  // Numerals in bases 2 to 16
  // ---------------------------------------------------------------------

  /** The digit character for `d`: '0'..'9', then lower-case 'a'..'f'. */
  function DigitChar(d: nat): char
    requires d < 16
  {
    if d < 10 then ('0' as int + d) as char else ('a' as int + d - 10) as char
  }

  /** The value of a digit character, or 16 for a non-digit. Python's
      `int()` takes both cases of the hexadecimal letters. */
  function CharValue(c: char): nat
  {
    if '0' <= c <= '9' then c as int - '0' as int
    else if 'a' <= c <= 'f' then c as int - 'a' as int + 10
    else if 'A' <= c <= 'F' then c as int - 'A' as int + 10
    else 16
  }

  /** The bases the assembler reads and writes numerals in. */
  predicate IsBase(base: nat) { base == 8 || base == 10 || base == 16 }

  predicate AllDigits(s: seq<char>, base: nat)
  {
    forall i :: 0 <= i < |s| ==> CharValue(s[i]) < base
  }

  /** The value of a digit string in `base`, most significant digit first. */
  function DigitsValue(s: seq<char>, base: nat): nat
    requires AllDigits(s, base)
  {
    if s == [] then 0 else base * DigitsValue(s[..|s| - 1], base) + CharValue(s[|s| - 1])
  }

  /** The shortest numeral of `n` in `base` (a single "0" for zero), as
      Python's format with a base letter writes it. */
  function Digits(n: nat, base: nat): (r: seq<char>)
    requires 2 <= base <= 16
    ensures |r| >= 1
  {
    if n < base then [DigitChar(n)] else Digits(n / base, base) + [DigitChar(n % base)]
  }

  /** Left-pads `s` with '0' up to width `w`. */
  function ZeroPad(s: seq<char>, w: int): (r: seq<char>)
    ensures |r| >= |s| && |r| >= w
  {
    if |s| >= w then s else Zeros(w - |s|) + s
  }

  /** Python's `f"{n:0{w}d}"` (base 10), `f"{n:0{w}o}"` (base 8) or
      `f"{n:0{w}x}"` (base 16): the sign counts towards the width. */
  function PadNumeral(n: int, base: nat, w: int): seq<char>
    requires 2 <= base <= 16
  {
    if n >= 0 then ZeroPad(Digits(n, base), w) else ['-'] + ZeroPad(Digits(-n, base), w - 1)
  }

  /** The class method `oct(number, width)`. */
  function Oct(n: int, w: int): seq<char>
  {
    PadNumeral(n, 8, w)
  }

  /** Python's `oct(n)[2:]`: the digits after the "0o" prefix; for a
      negative `n` the slice keeps the letter 'o' of "-0o". */
  function OctText(n: int): seq<char>
  {
    if n >= 0 then Digits(n, 8) else ['o'] + Digits(-n, 8)
  }

  /** Python's `int(text, base)` on an optional sign followed by digits.
      Anything else is the ValueError the original raises. */
  function ParseInt(s: seq<char>, base: nat): (r: Result<int>)
    ensures r.Ok? ==> |s| > 0
  {
    var signed := |s| > 0 && (s[0] == '-' || s[0] == '+');
    var body := if signed then s[1..] else s;
    if |body| > 0 && AllDigits(body, base) then
      Ok(if signed && s[0] == '-' then 0 - DigitsValue(body, base) else DigitsValue(body, base))
    else
      Err(BadLiteral(s))
  }

  lemma {:induction false} DigitsRoundTrip(n: nat, base: nat)
    requires IsBase(base)
    ensures AllDigits(Digits(n, base), base)
    ensures DigitsValue(Digits(n, base), base) == n
    decreases n
  {
    if n < base {
      DigitCharValue(n);
      DigitsSnoc([], DigitChar(n), base);
      assert [] + [DigitChar(n)] == Digits(n, base);
    } else {
      var q, d := n / base, n % base;
      DivModBase(n, base);
      DigitsRoundTrip(q, base);
      DigitCharValue(d);
      var p := Digits(q, base);
      assert Digits(n, base) == p + [DigitChar(d)];
      DigitsSnoc(p, DigitChar(d), base);
      assert DigitsValue(p + [DigitChar(d)], base) == base * q + d;
    }
  }

  lemma DigitsSnoc(p: seq<char>, c: char, base: nat)
    requires AllDigits(p, base) && CharValue(c) < base
    ensures AllDigits(p + [c], base)
    ensures DigitsValue(p + [c], base) == base * DigitsValue(p, base) + CharValue(c)
  {
    assert (p + [c])[..|p|] == p;
  }

  lemma DivModBase(n: nat, base: nat)
    requires base >= 2
    ensures n == base * (n / base) + n % base && 0 <= n % base < base
    ensures n >= base ==> n / base < n
  {
  }

  lemma DigitCharValue(d: nat)
    requires d < 16
    ensures CharValue(DigitChar(d)) == d
  {
  }

  lemma {:induction false} LeadingZeroDigits(s: seq<char>, base: nat)
    requires 2 <= base && AllDigits(s, base)
    ensures AllDigits(['0'] + s, base)
    ensures DigitsValue(['0'] + s, base) == DigitsValue(s, base)
    decreases |s|
  {
    if s != [] {
      var p := s[..|s| - 1];
      assert (['0'] + s)[..|s|] == ['0'] + p;
      LeadingZeroDigits(p, base);
    } else {
      assert (['0'] + s)[..0] == [];
    }
  }

  lemma {:induction false} ZerosDigits(k: nat, s: seq<char>, base: nat)
    requires 2 <= base && AllDigits(s, base)
    ensures AllDigits(Zeros(k) + s, base)
    ensures DigitsValue(Zeros(k) + s, base) == DigitsValue(s, base)
  {
    if k > 0 {
      var t := Zeros(k - 1) + s;
      ZerosDigits(k - 1, s, base);
      ZerosCons(k);
      assert Zeros(k) + s == ['0'] + t;
      LeadingZeroDigits(t, base);
    } else {
      assert Zeros(k) + s == s;
    }
  }

  lemma {:induction false} ZerosCons(k: nat)
    requires k > 0
    ensures Zeros(k) == ['0'] + Zeros(k - 1)
  {
    var z := ['0'] + Zeros(k - 1);
    assert |z| == k;
    forall i | 0 <= i < k ensures z[i] == Zeros(k)[i] {}
  }

  /** Padding keeps the value of a numeral. */
  lemma ZeroPadValue(n: nat, base: nat, w: int)
    requires IsBase(base)
    ensures AllDigits(ZeroPad(Digits(n, base), w), base)
    ensures DigitsValue(ZeroPad(Digits(n, base), w), base) == n
  {
    DigitsRoundTrip(n, base);
    var d := Digits(n, base);
    if |d| < w {
      ZerosDigits(w - |d|, d, base);
    }
  }

  /** `int(oct(n, w), 8) == n` for every integer `n`, negative ones included. */
  lemma OctParses(n: int, w: int)
    ensures ParseInt(Oct(n, w), 8) == Ok(n)
  {
    NumeralParses(n, 8, w);
  }

  /** A digit string reads back as its value, and so does one with a
      leading minus. */
  lemma ParseDigits(s: seq<char>, base: nat)
    requires IsBase(base) && |s| > 0 && AllDigits(s, base)
    ensures ParseInt(s, base) == Ok(DigitsValue(s, base))
  {
    assert CharValue(s[0]) < base;
  }

  lemma ParseNegativeDigits(s: seq<char>, base: nat)
    requires IsBase(base) && |s| > 0 && AllDigits(s, base)
    ensures ParseInt(['-'] + s, base) == Ok(0 - DigitsValue(s, base))
  {
    assert (['-'] + s)[1..] == s;
  }

  lemma NumeralParses(n: int, base: nat, w: int)
    requires IsBase(base)
    ensures ParseInt(PadNumeral(n, base, w), base) == Ok(n)
  {
    var m := if n >= 0 then n else -n;
    var v := if n >= 0 then w else w - 1;
    ZeroPadValue(m, base, v);
    if n >= 0 {
      ParseDigits(ZeroPad(Digits(m, base), v), base);
    } else {
      ParseNegativeDigits(ZeroPad(Digits(m, base), v), base);
    }
  }

  /** `int(oct(n)[2:], 8) == n` for a non-negative `n`; for a negative one
      the leftover 'o' makes `int` fail. */
  lemma OctTextParses(n: int)
    ensures n >= 0 ==> ParseInt(OctText(n), 8) == Ok(n)
    ensures n < 0 ==> ParseInt(OctText(n), 8).Err?
  {
    if n >= 0 {
      DigitsRoundTrip(n, 8);
      assert CharValue(OctText(n)[0]) < 8;
    } else {
      assert OctText(n)[0] == 'o';
      assert CharValue('o') == 16;
    }
  }

  /** The decimal rendering `f"{v:06}"` reads back as `v` in base 10. */
  lemma DecimalParses(v: int, w: int)
    ensures ParseInt(PadNumeral(v, 10, w), 10) == Ok(v)
  {
    NumeralParses(v, 10, w);
  }

  // ---------------------------------------------------------------------
  // bin2oct: listing text of a word or byte
  // ---------------------------------------------------------------------

  /** One octal digit per group of three bits. */
  function OctGroups(s: seq<char>): (r: seq<char>)
    requires |s| % 3 == 0 && IsBits(s)
    ensures |r| == |s| / 3
  {
    if s == [] then [] else OctGroups(s[..|s| - 3]) + [DigitChar(BitsValue(s[|s| - 3..]))]
  }

  /** The class method `bin2oct`. A word keeps its top bit as the first
      digit and then writes five 3-bit groups; a byte writes its top two
      bits as one digit and then two 3-bit groups. The closing
      `f"{int(res):06}"` (or `:03`) re-pads a string that already has six
      (three) digits and so changes nothing. */
  function BinToOct(text: seq<char>): (r: seq<char>)
    requires IsBits(text) && (|text| == 0 || |text| == 8 || |text| == 16)
  {
    if text == [] then []
    else if |text| == 16 then [text[0]] + OctGroups(text[1..])
    else [DigitChar(BitsValue(text[..2]))] + OctGroups(text[2..])
  }

  function Pow8(k: nat): (r: nat)
    ensures r >= 1
  {
    if k == 0 then 1 else 8 * Pow8(k - 1)
  }

  function Pow16(k: nat): (r: nat)
    ensures r >= 1
  {
    if k == 0 then 1 else 16 * Pow16(k - 1)
  }

  /** Exactly `k` base-8 digits of `n`. */
  function FixedOct(n: nat, k: nat): (r: seq<char>)
    ensures |r| == k
  {
    if k == 0 then [] else FixedOct(n / 8, k - 1) + [DigitChar(n % 8)]
  }

  lemma {:induction false} FixedOctZero(k: nat)
    ensures FixedOct(0, k) == Zeros(k)
  {
    if k > 0 {
      FixedOctZero(k - 1);
    }
  }

  lemma {:induction false} ZeroPadSnoc(x: seq<char>, c: char, w: int)
    requires w >= 1
    ensures ZeroPad(x + [c], w) == ZeroPad(x, w - 1) + [c]
  {
    if |x| + 1 < w {
      var z := Zeros(w - 1 - |x|);
      assert ZeroPad(x + [c], w) == z + (x + [c]);
      assert ZeroPad(x, w - 1) == z + x;
      assert z + (x + [c]) == (z + x) + [c];
    } else {
      assert ZeroPad(x + [c], w) == x + [c];
      assert ZeroPad(x, w - 1) == x;
    }
  }

  /** A padded octal numeral that fits in `k` digits is the fixed-width one. */
  lemma {:induction false} PadIsFixed(n: nat, k: nat)
    requires k >= 1 && n < Pow8(k)
    ensures ZeroPad(Digits(n, 8), k) == FixedOct(n, k)
    decreases k
  {
    assert Pow8(1) == 8;
    if n < 8 {
      FixedOctZero(k - 1);
      assert n / 8 == 0 && n % 8 == n;
      assert Zeros(k - 1) + [DigitChar(n)] == FixedOct(n, k);
    } else {
      var q, c := n / 8, DigitChar(n % 8);
      assert Pow8(k) == 8 * Pow8(k - 1);
      assert q < Pow8(k - 1);
      PadIsFixed(q, k - 1);
      assert Digits(n, 8) == Digits(q, 8) + [c];
      ZeroPadSnoc(Digits(q, 8), c, k);
      assert FixedOct(n, k) == FixedOct(q, k - 1) + [c];
    }
  }

  lemma DivMod8(v: int, a: int, b: int)
    requires v == 8 * a + b && 0 <= b < 8
    ensures v / 8 == a && v % 8 == b
  {
  }

  lemma {:induction false} GroupsAreFixedOct(s: seq<char>)
    requires |s| % 3 == 0 && IsBits(s)
    ensures OctGroups(s) == FixedOct(BitsValue(s), |s| / 3)
    decreases |s|
  {
    if s != [] {
      var p, t := s[..|s| - 3], s[|s| - 3..];
      assert s == p + t;
      GroupsAreFixedOct(p);
      BitsValueSplit(p, t);
      assert Pow2(3) == 8;
      DivMod8(BitsValue(s), BitsValue(p), BitsValue(t));
    }
  }

  lemma {:induction false} GroupsAppend(a: seq<char>, b: seq<char>)
    requires |a| % 3 == 0 && |b| % 3 == 0 && IsBits(a) && IsBits(b)
    ensures OctGroups(a + b) == OctGroups(a) + OctGroups(b)
    decreases |b|
  {
    if b == [] {
      assert a + b == a;
    } else {
      var b' := b[..|b| - 3];
      assert (a + b)[..|a + b| - 3] == a + b';
      assert (a + b)[|a + b| - 3..] == b[|b| - 3..];
      GroupsAppend(a, b');
    }
  }

  /** The three-digit groups of a left-padded bit string give its value. */
  lemma PaddedGroups(z: seq<char>, s: seq<char>, k: nat)
    requires IsBits(s) && z == Zeros(|z|) && (|z| + |s|) % 3 == 0 && k == (|z| + |s|) / 3
    requires k >= 1 && BitsValue(s) < Pow8(k)
    ensures OctGroups(z + s) == Oct(BitsValue(s), k)
  {
    var v := BitsValue(s);
    assert IsBits(z + s) && |z + s| / 3 == k;
    GroupsAreFixedOct(z + s);
    ZerosBits(z, s);
    assert OctGroups(z + s) == FixedOct(v, k);
    PadIsFixed(v, k);
    assert Oct(v, k) == ZeroPad(Digits(v, 8), k);
  }

  lemma {:induction false} ZerosBits(z: seq<char>, s: seq<char>)
    requires z == Zeros(|z|)
    ensures BitsValue(z + s) == BitsValue(s)
    decreases |z|
  {
    if z != [] {
      ZerosCons(|z|);
      assert z[1..] == Zeros(|z| - 1);
      assert z + s == ['0'] + (z[1..] + s);
      LeadingZeroBits(z[1..] + s);
      ZerosBits(z[1..], s);
    } else {
      assert z + s == s;
    }
  }

  lemma WordGroups(s: seq<char>)
    requires IsBits(s) && |s| == 16
    ensures BinToOct(s) == OctGroups(['0', '0'] + s)
  {
    var head := ['0', '0', s[0]];
    assert BitsValue(head) == BitValue(s[0]) by {
      ZerosBits(['0', '0'], [s[0]]);
      assert head == ['0', '0'] + [s[0]];
      assert [s[0]][..0] == [];
    }
    assert OctGroups(head) == [DigitChar(BitsValue(head))] by {
      assert head[..0] == [];
      assert head[0..] == head;
    }
    GroupsAppend(head, s[1..]);
    assert head + s[1..] == ['0', '0'] + s;
  }

  lemma WordToOct(s: seq<char>)
    requires IsBits(s) && |s| == 16
    ensures BinToOct(s) == Oct(BitsValue(s), 6)
  {
    WordGroups(s);
    assert Pow8(6) == 262144;
    assert Pow2(16) == 65536;
    assert ['0', '0'] == Zeros(2);
    PaddedGroups(['0', '0'], s, 6);
  }

  lemma ByteGroups(s: seq<char>)
    requires IsBits(s) && |s| == 8
    ensures BinToOct(s) == OctGroups(['0'] + s)
  {
    var head := ['0', s[0], s[1]];
    assert BitsValue(head) == BitsValue(s[..2]) by {
      assert s[..2] == [s[0], s[1]];
      assert head == ['0'] + s[..2];
      LeadingZeroBits(s[..2]);
    }
    assert OctGroups(head) == [DigitChar(BitsValue(head))] by {
      assert head[..0] == [];
      assert head[0..] == head;
    }
    GroupsAppend(head, s[2..]);
    assert head + s[2..] == ['0'] + s;
  }

  lemma ByteToOct(s: seq<char>)
    requires IsBits(s) && |s| == 8
    ensures BinToOct(s) == Oct(BitsValue(s), 3)
  {
    ByteGroups(s);
    assert Pow8(3) == 512;
    assert Pow2(8) == 256;
    assert ['0'] == Zeros(1);
    PaddedGroups(['0'], s, 3);
  }

  /** `bin2oct` of a 16-bit word is the 6-digit zero-padded octal numeral of
      its value (0001010111000000 gives 012700); of a byte, the 3-digit one;
      of the empty string, the empty string. */
  lemma BinToOctIsOctal(s: seq<char>)
    requires IsBits(s) && (|s| == 0 || |s| == 8 || |s| == 16)
    ensures |s| == 16 ==> BinToOct(s) == Oct(BitsValue(s), 6)
    ensures |s| == 8 ==> BinToOct(s) == Oct(BitsValue(s), 3)
    ensures |s| == 0 ==> BinToOct(s) == []
  {
    if |s| == 16 {
      WordToOct(s);
    } else if |s| == 8 {
      ByteToOct(s);
    }
  }

  // ---------------------------------------------------------------------
  // bin2hex: object-file byte tokens
  // ---------------------------------------------------------------------

  /** One object-file token: `f"{b:02x}\n"` for a byte `b` below 256. */
  function ByteToken(b: nat): seq<char>
  {
    [DigitChar(b / 16 % 16), DigitChar(b % 16), '\n']
  }

  /** The class method `bin2hex`: a word gives its low byte then its high
      byte, a byte gives itself, the empty string gives nothing. */
  function BinToHex(s: seq<char>): (r: seq<seq<char>>)
    requires IsBits(s) && (|s| == 0 || |s| == 8 || |s| == 16)
    ensures |s| == 16 ==> r == [ByteToken(BitsValue(s) % 256), ByteToken(BitsValue(s) / 256)]
    ensures |s| == 8 ==> r == [ByteToken(BitsValue(s))]
    ensures |s| == 0 ==> r == []
    ensures |r| == |s| / 8
  {
    if s == [] then []
    else if |s| == 16 then
      WordBytes(s);
      [ByteToken(BitsValue(s[8..])), ByteToken(BitsValue(s[..8]))]
    else [ByteToken(BitsValue(s))]
  }

  /** The low and high bytes of a word. */
  lemma WordBytes(s: seq<char>)
    requires |s| == 16
    ensures BitsValue(s) % 256 == BitsValue(s[8..]) && BitsValue(s) / 256 == BitsValue(s[..8])
  {
    assert Pow2(8) == 256;
    BitsValueSplit(s[..8], s[8..]);
    assert s[..8] + s[8..] == s;
    DivMod256(BitsValue(s), BitsValue(s[..8]), BitsValue(s[8..]));
  }

  lemma DivMod256(v: int, a: int, b: int)
    requires v == a * 256 + b && 0 <= b < 256
    ensures v / 256 == a && v % 256 == b
  {
  }

  /** Reading a byte token's two hexadecimal digits gives the byte back. */
  lemma ByteTokenParses(b: nat)
    requires b < 256
    ensures ParseInt(ByteToken(b)[..2], 16) == Ok(b)
  {
    assert b / 16 % 16 == b / 16;
    var hi, lo := DigitChar(b / 16), DigitChar(b % 16);
    DigitCharValue(b / 16);
    DigitCharValue(b % 16);
    DigitsSnoc([], hi, 16);
    assert [] + [hi] == [hi];
    DigitsSnoc([hi], lo, 16);
    assert ByteToken(b)[..2] == [hi] + [lo];
  }

  /** The header line of a non-empty object block: `f"{addr:x} {count:04x}\n"`. */
  function BlockHeader(address: int, count: nat): seq<char>
  {
    PadNumeral(address, 16, 0) + [' '] + PadNumeral(count, 16, 4) + ['\n']
  }

  /** The header's second field is four hex digits that give the byte count
      (for any count below 0x10000). */
  lemma BlockHeaderCount(address: nat, count: nat)
    requires count < 65536
    ensures var h := BlockHeader(address, count);
      var a := |PadNumeral(address, 16, 0)|;
      |h| == a + 6 && h[a] == ' ' && h[|h| - 1] == '\n' &&
      ParseInt(h[a + 1..a + 5], 16) == Ok(count)
  {
    var c := PadNumeral(count, 16, 4);
    HexCountField(count);
    var x := PadNumeral(address, 16, 0);
    var h := BlockHeader(address, count);
    assert h == x + [' '] + c + ['\n'];
    assert h[|x| + 1..|x| + 5] == c;
  }

  lemma HexCountField(count: nat)
    requires count < 65536
    ensures |PadNumeral(count, 16, 4)| == 4
    ensures ParseInt(PadNumeral(count, 16, 4), 16) == Ok(count)
  {
    var c := PadNumeral(count, 16, 4);
    DigitsLength16(count);
    ZeroPadValue(count, 16, 4);
    assert CharValue(c[0]) < 16;
  }

  lemma {:induction false} DigitsLength16(n: nat)
    requires n < 65536
    ensures |Digits(n, 16)| <= 4
  {
    if n >= 16 {
      assert Pow16(3) == 4096;
      DigitsLength16Below(n / 16, 3);
    }
  }

  lemma {:induction false} DigitsLength16Below(n: nat, k: nat)
    requires k >= 1 && n < Pow16(k)
    ensures |Digits(n, 16)| <= k
    decreases k
  {
    assert Pow16(1) == 16;
    if n >= 16 {
      DigitsLength16Below(n / 16, k - 1);
    }
  }
}
