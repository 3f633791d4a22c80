/**
 Number formatting and printf (lib.c): digits are produced backwards into a buffer and reversed in
 place, and a format string is rendered piece by piece.
 */
module Format {
  import opened Bytes
  import opened Streams

  const WORD: nat := 0x1_0000_0000
  const MINUS: byte := 45
  const PERCENT: byte := 37
  const HASH: byte := 35
  const ZERO: byte := 48

  // ---------------------------------------------------------------- digits

  /** The lookup table: 0-9 and then A-Z. */
  function Digit(d: nat): (c: byte)
    requires d < 36
    ensures c != NUL && c != MINUS
  {
    if d < 10 then (48 + d) as byte else (55 + d) as byte
  }

  /** The number a digit character stands for. */
  function DigitValue(c: byte): nat {
    if 48 <= c < 58 then c as nat - 48 else if 65 <= c < 91 then c as nat - 55 else 0
  }

  function Quot(value: nat, radix: nat): nat
    requires radix > 0
  {
    value / radix
  }

  function Rem(value: nat, radix: nat): nat
    requires radix > 0
  {
    value % radix
  }

  lemma Division(value: nat, radix: nat)
    requires radix >= 2
    ensures value == Quot(value, radix) * radix + Rem(value, radix) && Rem(value, radix) < radix
    ensures value > 0 ==> Quot(value, radix) <= value / 2 < value
    ensures value >= radix ==> Quot(value, radix) > 0
    ensures value < radix ==> Quot(value, radix) == 0 && Rem(value, radix) == value
  {
    AtLeastTwice(value / radix, radix);
  }

  lemma AtLeastTwice(q: nat, radix: nat)
    requires radix >= 2
    ensures q * radix >= 2 * q && (q > 0 ==> q * radix >= radix) && (q == 0 ==> q * radix == 0)
  {
    if q > 0 { AtLeastTwice(q - 1, radix); }
  }

  /** A number in positional notation, most significant digit first. */
  function Digits(value: nat, radix: nat): (s: seq<byte>)
    requires 2 <= radix <= 36
    ensures s != [] && NoNul(s)
  {
    Division(value, radix);
    if value < radix then [Digit(value)]
    else Digits(Quot(value, radix), radix) + [Digit(Rem(value, radix))]
  }

  /** The number a string of digits denotes. */
  function Parse(s: seq<byte>, radix: nat): nat {
    if s == [] then 0 else Parse(s[..|s| - 1], radix) * radix + DigitValue(s[|s| - 1])
  }

  lemma ParseStep(s: seq<byte>, d: nat, radix: nat)
    requires d < 36
    ensures Parse(s + [Digit(d)], radix) == Parse(s, radix) * radix + d
  {
    assert (s + [Digit(d)])[..|s|] == s;
  }

  lemma OneDigit(d: nat, radix: nat)
    requires d < radix <= 36 && 2 <= radix
    ensures Digits(d, radix) == [Digit(d)] && Parse([Digit(d)], radix) == d && (Digit(d) == ZERO ==> d == 0)
  {
    assert Parse([], radix) * radix == 0;
  }

  /** A character that stands for a digit of the radix. */
  predicate IsDigit(c: byte, radix: nat) { 48 <= c < 58 || (65 <= c < 91 && c as nat - 55 < radix) }

  ghost predicate AllDigits(s: seq<byte>, radix: nat) {
    s != [] && forall i :: 0 <= i < |s| ==> IsDigit(s[i], radix)
  }

  lemma {:induction false} DigitsAreDigits(value: nat, radix: nat)
    requires 10 <= radix <= 36
    ensures AllDigits(Digits(value, radix), radix)
  {
    hide Quot, Rem;
    Division(value, radix);
    if value >= radix { DigitsAreDigits(Quot(value, radix), radix); }
  }

  /** Main result: reading a formatted number gives the number back, and there are no leading zeros. */
  lemma {:induction false} RoundTrip(value: nat, radix: nat)
    requires 2 <= radix <= 36
    ensures Parse(Digits(value, radix), radix) == value
    ensures Digits(value, radix)[0] == ZERO ==> value == 0
  {
    hide Quot, Rem, Parse, Digit;
    Division(value, radix);
    if value < radix {
      OneDigit(value, radix);
    } else {
      RoundTrip(Quot(value, radix), radix);
      ParseStep(Digits(Quot(value, radix), radix), Rem(value, radix), radix);
    }
  }

  /** At most k digits for a number below 2 to the k. */
  lemma {:induction false} FewDigits(value: nat, radix: nat, k: nat, bound: nat)
    requires 2 <= radix <= 36 && k >= 1 && bound == Power2(k) && value < bound
    ensures |Digits(value, radix)| <= k
  {
    hide Quot, Rem, Digit;
    if value >= radix {
      Division(value, radix);
      FewDigits(Quot(value, radix), radix, k - 1, Power2(k - 1));
    }
  }

  function Power2(k: nat): (p: nat)
    ensures p >= 1
  {
    if k == 0 then 1 else 2 * Power2(k - 1)
  }

  // ---------------------------------------------------------------- itoa

  function Reversed(s: seq<byte>): (r: seq<byte>)
    ensures |r| == |s|
  {
    seq(|s|, i requires 0 <= i < |s| => s[|s| - 1 - i])
  }

  /** strrev on the C string a[at..end). */
  method StrRev(a: array<byte>, at: nat, ghost end: nat)
    requires CString(a, at, end)
    modifies a
    ensures forall k :: 0 <= k < a.Length ==> a[k] == if at <= k < end then old(a[at + end - 1 - k]) else old(a[k])
  {
    var beg := 0;
    var len: int := StrLen(a, at, end);
    var last := len - 1;
    while beg < last
      invariant 0 <= beg <= last + 2 && beg + last == len - 1
      invariant forall k :: 0 <= k < a.Length ==>
        a[k] == if at <= k < at + beg || at + last < k < end then old(a[at + end - 1 - k]) else old(a[k])
    {
      var tmp := a[at + last];
      a[at + last] := a[at + beg];
      a[at + beg] := tmp;
      beg := beg + 1;
      last := last - 1;
    }
  }

  /** The digits still to be produced for a rest; none for zero. */
  function DigitsOf(value: nat, radix: nat): seq<byte>
    requires 2 <= radix <= 36
  {
    if value == 0 then [] else Digits(value, radix)
  }

  /** digits is what is still to be produced for rest, and then what was produced so far, backwards. */
  ghost predicate Produced(digits: seq<byte>, rest: nat, radix: nat, back: seq<byte>)
    requires 2 <= radix <= 36
  {
    digits == DigitsOf(rest, radix) + Reversed(back)
  }

  lemma ProduceDigit(digits: seq<byte>, rest: nat, radix: nat, back: seq<byte>)
    requires 2 <= radix <= 36 && rest > 0 && Produced(digits, rest, radix, back)
    ensures Rem(rest, radix) < radix && Quot(rest, radix) < rest
    ensures Produced(digits, Quot(rest, radix), radix, back + [Digit(Rem(rest, radix))])
  {
    Division(rest, radix);
    var d := Digit(Rem(rest, radix));
    assert DigitsOf(rest, radix) == DigitsOf(Quot(rest, radix), radix) + [d];
    assert Reversed(back + [d]) == [d] + Reversed(back);
    ConcatAssoc(DigitsOf(Quot(rest, radix), radix), [d], Reversed(back));
  }

  lemma ProduceStartEnd(value: nat, radix: nat, back: seq<byte>)
    requires 2 <= radix <= 36
    ensures value > 0 ==> Produced(Digits(value, radix), value, radix, [])
    ensures forall digits :: Produced(digits, 0, radix, back) ==> digits == Reversed(back)
    ensures Digits(0, radix) == [ZERO]
  {
    Division(0, radix);
    assert Reversed([]) == [];
    forall digits | Produced(digits, 0, radix, back) ensures digits == Reversed(back) {
      assert [] + Reversed(back) == Reversed(back);
    }
  }

  /** A text in memory as a C string. */
  ghost predicate TextAt(a: array<byte>, at: nat, text: seq<byte>)
    reads a
  {
    && at + |text| < a.Length && a[at + |text|] == NUL
    && forall k :: at <= k < at + |text| ==> a[k] == text[k - at]
  }

  /** itoa: the digits of value from at on, terminated, and nothing else. */
  method Itoa(value: nat, buf: array<byte>, at: nat, radix: nat)
    requires 2 <= radix <= 36 && value < WORD && at + |Digits(value, radix)| < buf.Length
    modifies buf
    ensures TextAt(buf, at, Digits(value, radix))
    ensures forall k :: 0 <= k < buf.Length && !(at <= k <= at + |Digits(value, radix)|) ==> buf[k] == old(buf[k])
  {
    hide Digits, Digit, Produced, Reversed;
    ProduceStartEnd(value, radix, []);
    if value == 0 {
      buf[at] := ZERO;
      buf[at + 1] := NUL;
      return;
    }
    ghost var digits := Digits(value, radix);
    var newbuf: nat, newval: nat := at, value;
    ghost var back: seq<byte> := [];
    while newval > 0
      invariant newbuf == at + |back| <= at + |digits| && NoNul(back) && Produced(digits, newval, radix, back)
      invariant forall k :: at <= k < newbuf ==> buf[k] == back[k - at]
      invariant forall k :: 0 <= k < buf.Length && !(at <= k < newbuf) ==> buf[k] == old(buf[k])
      decreases newval
    {
      ProduceDigit(digits, newval, radix, back);
      var d := Digit(newval % radix);
      back := back + [d];
      ProducedFits(digits, Quot(newval, radix), radix, back);
      buf[newbuf] := d;
      newbuf := newbuf + 1;
      newval := newval / radix;
    }
    ProduceStartEnd(value, radix, back);
    ReversedAt(back);
    buf[newbuf] := NUL;
    StrRev(buf, at, newbuf);
  }

  lemma ProducedFits(digits: seq<byte>, rest: nat, radix: nat, back: seq<byte>)
    requires 2 <= radix <= 36 && Produced(digits, rest, radix, back)
    ensures |back| <= |digits|
  {
  }

  lemma ReversedAt(s: seq<byte>)
    ensures forall i :: 0 <= i < |s| ==> Reversed(s)[i] == s[|s| - 1 - i]
  {
  }

  // ---------------------------------------------------------------- printf

  /** A further argument: a 32-bit word, or a pointer to a C string. */
  datatype Arg = Word(w: nat) | Text(s: seq<byte>) {
    ghost predicate Ok() { if Word? then w < WORD else NoNul(s) }
  }

  const LOW_X: byte := 120
  const LOW_U: byte := 117
  const LOW_D: byte := 100
  const LOW_C: byte := 99
  const LOW_S: byte := 115

  predicate TakesWord(c: byte) { c == LOW_X || c == LOW_U || c == LOW_D || c == LOW_C }

  /** "%#x": padded with zeros on the left to eight digits. */
  function Hex8(w: nat): seq<byte>
  {
    var d := Digits(w, 16);
    seq(if |d| < 8 then 8 - |d| else 0, _ => ZERO) + d
  }

  /** "%d": the word as a two's complement number. */
  function Signed(w: nat): seq<byte>
    requires w < WORD
  {
    if w >= WORD / 2 then [MINUS] + Digits(WORD - w, 10) else Digits(w, 10)
  }

  /** What a conversion prints for its argument. */
  function Converted(c: byte, alternate: bool, arg: Arg): seq<byte>
    requires if TakesWord(c) then arg.Word? && arg.w < WORD else c == LOW_S && arg.Text?
  {
    if c == LOW_X then (if alternate then Hex8(arg.w) else Digits(arg.w, 16))
    else if c == LOW_U then Digits(arg.w, 10)
    else if c == LOW_D then Signed(arg.w)
    else if c == LOW_C then [(arg.w % 256) as byte]
    else arg.s
  }

  /** How many '#' a text begins with. */
  function Hashes(f: seq<byte>): (n: nat)
    ensures n <= |f|
  {
    if f == [] || f[0] != HASH then 0 else 1 + Hashes(f[1..])
  }

  /** The index of the conversion behind the flags of a '%' that memory begins with. */
  function ConversionAt(m: seq<byte>): (h: nat)
    requires m != []
    ensures 1 <= h <= |m|
  {
    1 + Hashes(m[1..])
  }

  predicate TakesArg(c: byte) { TakesWord(c) || c == LOW_S }

  /**
   The memory from a format on reaches far enough for printf to find an end, and there is a fitting
   argument for each conversion that takes one.
   */
  ghost predicate WellFormed(m: seq<byte>, args: seq<Arg>)
    decreases |m|
  {
    m != [] &&
    if m[0] == NUL then true
    else if m[0] != PERCENT then WellFormed(m[1..], args)
    else
      var h := ConversionAt(m);
      && h < |m|
      && if TakesArg(m[h]) then args != [] && args[0].Word? == TakesWord(m[h]) && WellFormed(m[h + 1..], args[1..])
         else WellFormed(m[h + 1..], args)
  }

  ghost predicate ArgsOk(args: seq<Arg>) {
    forall i :: 0 <= i < |args| ==> args[i].Ok()
  }

  /** The text a format stands for; a conversion that is not known prints nothing. */
  ghost function Rendered(m: seq<byte>, args: seq<Arg>): seq<byte>
    requires WellFormed(m, args) && ArgsOk(args)
    decreases |m|
  {
    if m[0] == NUL then []
    else if m[0] != PERCENT then [m[0]] + Rendered(m[1..], args)
    else
      var h := ConversionAt(m);
      if TakesArg(m[h]) then
        assert args[0].Ok();
        Converted(m[h], h > 1, args[0]) + Rendered(m[h + 1..], args[1..])
      else (if m[h] == PERCENT then [PERCENT] else []) + Rendered(m[h + 1..], args)
  }

  /** Where printf stops reading: a conversion takes the byte behind its flags, even a terminator. */
  ghost function StopAt(m: seq<byte>, args: seq<Arg>): (n: nat)
    requires WellFormed(m, args)
    ensures n < |m| && m[n] == NUL
    decreases |m|
  {
    if m[0] == NUL then 0
    else if m[0] != PERCENT then 1 + StopAt(m[1..], args)
    else
      var h := ConversionAt(m);
      h + 1 + StopAt(m[h + 1..], if TakesArg(m[h]) then args[1..] else args)
  }

  /** A format that ends within a conversion: behind its last '%' there is nothing but flags. */
  predicate CutOff(f: seq<byte>)
    decreases |f|
  {
    if f == [] then false
    else if f[0] != PERCENT then CutOff(f[1..])
    else ConversionAt(f) == |f| || CutOff(f[ConversionAt(f) + 1..])
  }

  lemma {:induction false} HashesConcat(f: seq<byte>, rest: seq<byte>)
    requires rest == [] || rest[0] != HASH
    ensures Hashes(f + rest) == Hashes(f)
    decreases |f|
  {
    if f == [] {
      assert f + rest == rest;
    } else {
      HashesConcat(f[1..], rest);
      ConcatParts(f, rest, 1);
    }
  }

  /**
   printf stops at the terminator of its format, whatever lies behind it in memory, if and only if the
   format does not end within a conversion; otherwise it reads on behind it.
   */
  lemma {:induction false} StaysInFormat(f: seq<byte>, rest: seq<byte>, args: seq<Arg>)
    requires NoNul(f) && WellFormed(f + [NUL] + rest, args)
    ensures StopAt(f + [NUL] + rest, args) == |f| <==> !CutOff(f)
    ensures StopAt(f + [NUL] + rest, args) >= |f|
    decreases |f|
  {
    var m := f + [NUL] + rest;
    if f != [] && f[0] != PERCENT {
      assert m[1..] == f[1..] + [NUL] + rest;
      StaysInFormat(f[1..], rest, args);
    } else if f != [] {
      var h := ConversionAt(f);
      assert m[1..] == f[1..] + ([NUL] + rest);
      HashesConcat(f[1..], [NUL] + rest);
      assert ConversionAt(m) == h;
      if h < |f| {
        assert m[h] == f[h] && m[h + 1..] == f[h + 1..] + [NUL] + rest;
        StaysInFormat(f[h + 1..], rest, if TakesArg(m[h]) then args[1..] else args);
      }
    }
  }

  const LOW_A: byte := 97

  /** A lone percent sign: what lies behind the format in memory is printed. */
  lemma LonePercent()
    ensures var m := [PERCENT, NUL, LOW_A, NUL];
            WellFormed(m, []) && StopAt(m, []) == 3 && ArgsOk([]) && Rendered(m, []) == [LOW_A]
  {
    var m := [PERCENT, NUL, LOW_A, NUL];
    assert m[1..] == [NUL, LOW_A, NUL] && ConversionAt(m) == 1;
    assert m[2..] == [LOW_A, NUL] && [LOW_A, NUL][1..] == [NUL];
    assert WellFormed([NUL], []) && WellFormed([LOW_A, NUL], []);
    assert Rendered([NUL], []) == [] && Rendered([LOW_A, NUL], []) == [LOW_A] + [];
    assert Rendered(m, []) == [] + [LOW_A];
  }

  // ---- what the conversions mean

  lemma {:induction false} HexDigits(value: nat, k: nat)
    requires k >= 1 && value < Power16(k)
    ensures |Digits(value, 16)| <= k
  {
    hide Digit;
    if value >= 16 {
      Division(value, 16);
      HexDigits(Quot(value, 16), k - 1);
    }
  }

  function Power16(k: nat): (p: nat)
    ensures p >= 1
  {
    if k == 0 then 1 else 16 * Power16(k - 1)
  }

  lemma {:induction false} ParseZeros(n: nat, s: seq<byte>)
    ensures Parse(seq(n, _ => ZERO) + s, 16) == Parse(s, 16)
    decreases n + |s|
  {
    var z := seq(n, _ => ZERO);
    if s != [] {
      ParseZeros(n, s[..|s| - 1]);
      assert (z + s)[..|z + s| - 1] == z + s[..|s| - 1];
    } else if n > 0 {
      ParseZeros(n - 1, []);
      assert z + [] == z && z[..n - 1] == seq(n - 1, _ => ZERO) + [];
    }
  }

  /** "%#x" prints exactly eight digits, and they denote the word. */
  lemma Hex8IsWord(w: nat)
    requires w < WORD
    ensures |Hex8(w)| == 8 && Parse(Hex8(w), 16) == w
  {
    assert Power16(8) == WORD by {
      assert Power16(2) == 256;
      assert Power16(4) == 65536;
      assert Power16(6) == 16777216;
    }
    HexDigits(w, 8);
    RoundTrip(w, 16);
    ParseZeros(8 - |Digits(w, 16)|, Digits(w, 16));
  }

  function ParseSigned(s: seq<byte>): int {
    if s != [] && s[0] == MINUS then -(Parse(s[1..], 10) as int) else Parse(s, 10)
  }

  lemma {:induction false} NoMinus(value: nat)
    ensures Digits(value, 10)[0] != MINUS
  {
    hide Digit;
    Division(value, 10);
    if value >= 10 { NoMinus(Quot(value, 10)); }
  }

  /** "%d" prints the two's complement value of the word, the most negative one included. */
  lemma SignedIsValue(w: nat)
    requires w < WORD
    ensures ParseSigned(Signed(w)) == if w >= WORD / 2 then w - WORD else w
  {
    if w >= WORD / 2 {
      RoundTrip(WORD - w, 10);
      assert Signed(w)[1..] == Digits(WORD - w, 10);
    } else {
      RoundTrip(w, 10);
      NoMinus(w);
    }
  }

  /** Every formatted word fits the conversion buffers. */
  lemma FitsBuffer(w: nat, radix: nat)
    requires 2 <= radix <= 36 && w < WORD
    ensures |Digits(w, radix)| <= 32
  {
    assert Power2(32) == WORD by {
      assert Power2(8) == 256;
      assert Power2(16) == 65536;
      assert Power2(24) == 16777216;
    }
    FewDigits(w, radix, 32, WORD);
  }

  // ---- what printf prints, by the meaning of the text

  /** A format with one conversion and n flags, and its terminator. */
  function OneConversion(n: nat, c: byte): seq<byte> { [PERCENT] + (seq(n, _ => HASH) + [c, NUL]) }

  lemma {:induction false} HashesAre(n: nat, rest: seq<byte>)
    requires rest == [] || rest[0] != HASH
    ensures Hashes(seq(n, _ => HASH) + rest) == n
  {
    var f := seq(n, _ => HASH) + rest;
    if n > 0 {
      HashesAre(n - 1, rest);
      assert f[1..] == seq(n - 1, _ => HASH) + rest;
    } else {
      assert f == rest;
    }
  }

  lemma ConversionParts(n: nat, c: byte, args: seq<Arg>)
    requires c != HASH && ArgsOk(args)
    requires if TakesArg(c) then |args| == 1 && args[0].Word? == TakesWord(c) else args == []
    ensures var m := OneConversion(n, c);
            && WellFormed(m, args)
            && Rendered(m, args) == if TakesArg(c) then (assert args[0].Ok(); Converted(c, n > 0, args[0]))
                                    else if c == PERCENT then [PERCENT] else []
  {
    var m := OneConversion(n, c);
    var flags, tail := seq(n, _ => HASH), [c, NUL];
    HashesAre(n, tail);
    assert m[1..] == flags + tail && ConversionAt(m) == 1 + n && m[1 + n] == c && m[2 + n..] == [NUL];
    hide Converted, Hashes;
  }

  /** "%d", with any flags, prints the two's complement value of its word, in decimal without leading zeros. */
  lemma PrintsSigned(n: nat, w: nat)
    requires w < WORD
    ensures var m, args := OneConversion(n, LOW_D), [Word(w)];
            && WellFormed(m, args) && ArgsOk(args)
            && var s, value: int := Rendered(m, args), if w >= WORD / 2 then w - WORD else w;
               && ParseSigned(s) == value && (value < 0 <==> s != [] && s[0] == MINUS)
               && var digits := if value < 0 then s[1..] else s;
                  AllDigits(digits, 10) && (digits[0] == ZERO ==> value == 0)
  {
    hide Rendered, WellFormed, OneConversion;
    ConversionParts(n, LOW_D, [Word(w)]);
    SignedIsValue(w);
    var magnitude := if w >= WORD / 2 then WORD - w else w;
    DigitsAreDigits(magnitude, 10);
    RoundTrip(magnitude, 10);
    NoMinus(magnitude);
    hide Digits;
    if w >= WORD / 2 { assert Signed(w)[1..] == Digits(magnitude, 10); }
  }

  /** "%u" prints its word in decimal, and "%x" without flags in hexadecimal, without leading zeros. */
  lemma PrintsUnsigned(n: nat, w: nat, radix: nat)
    requires w < WORD && (radix == 10 || (radix == 16 && n == 0))
    ensures var m, args := OneConversion(n, if radix == 10 then LOW_U else LOW_X), [Word(w)];
            && WellFormed(m, args) && ArgsOk(args)
            && var s := Rendered(m, args); AllDigits(s, radix) && Parse(s, radix) == w && (s[0] == ZERO ==> w == 0)
  {
    hide Rendered, WellFormed, OneConversion, Digits, Parse;
    ConversionParts(n, if radix == 10 then LOW_U else LOW_X, [Word(w)]);
    DigitsAreDigits(w, radix);
    RoundTrip(w, radix);
  }

  /** "%#x" prints its word as exactly eight hexadecimal digits. */
  lemma PrintsEightDigits(n: nat, w: nat)
    requires w < WORD && n > 0
    ensures var m, args := OneConversion(n, LOW_X), [Word(w)];
            && WellFormed(m, args) && ArgsOk(args)
            && var s := Rendered(m, args); |s| == 8 && AllDigits(s, 16) && Parse(s, 16) == w
  {
    hide Rendered, WellFormed, OneConversion, Digits, Parse;
    ConversionParts(n, LOW_X, [Word(w)]);
    DigitsAreDigits(w, 16);
    Hex8IsWord(w);
  }

  /** "%c" prints the low byte of its word, "%s" its string, "%%" a percent sign, and an unknown conversion nothing. */
  lemma PrintsPlain(n: nat, c: byte, args: seq<Arg>)
    requires c != HASH && c !in [LOW_X, LOW_U, LOW_D] && ArgsOk(args)
    requires if c == LOW_C then |args| == 1 && args[0].Word? else if c == LOW_S then |args| == 1 && args[0].Text?
             else args == []
    ensures WellFormed(OneConversion(n, c), args)
    ensures var s := Rendered(OneConversion(n, c), args);
            if c == LOW_C then |s| == 1 && s[0] as nat == args[0].w % 256
            else if c == LOW_S then s == args[0].s
            else s == if c == PERCENT then [PERCENT] else []
  {
    hide Rendered, WellFormed, OneConversion;
    ConversionParts(n, c, args);
  }

  /** A format without percent signs prints itself. */
  lemma {:induction false} PrintsItself(f: seq<byte>)
    requires NoNul(f) && PERCENT !in f
    ensures WellFormed(f + [NUL], []) && ArgsOk([]) && Rendered(f + [NUL], []) == f
  {
    var m := f + [NUL];
    if f != [] {
      PrintsItself(f[1..]);
      assert m[1..] == f[1..] + [NUL] && f == [f[0]] + f[1..];
    }
  }

  /** How many arguments a format takes. */
  function Takes(f: seq<byte>): nat
    decreases |f|
  {
    if f == [] then 0
    else if f[0] != PERCENT then Takes(f[1..])
    else
      var h := ConversionAt(f);
      if h == |f| then 0 else (if TakesArg(f[h]) then 1 else 0) + Takes(f[h + 1..])
  }

  /** Two formats behind each other print what each one prints, the second with the arguments the first leaves. */
  lemma {:induction false} PrintsBehind(f: seq<byte>, m: seq<byte>, x: seq<Arg>, y: seq<Arg>)
    requires NoNul(f) && !CutOff(f) && Takes(f) == |x| && WellFormed(f + [NUL], x) && WellFormed(m, y)
    requires ArgsOk(x) && ArgsOk(y)
    ensures ArgsOk(x + y) && WellFormed(f + m, x + y)
    ensures Rendered(f + m, x + y) == Rendered(f + [NUL], x) + Rendered(m, y)
    decreases |f|
  {
    if f == [] {
      assert f + m == m && x + y == y && f + [NUL] == [NUL];
    } else if f[0] != PERCENT {
      FormatTail(f, m, 1);
      FormatTail(f, [NUL], 1);
      PrintsBehind(f[1..], m, x, y);
      ConcatAssoc([f[0]], Rendered(f[1..] + [NUL], x), Rendered(m, y));
    } else {
      var h := ConversionAt(f);
      var rest := f[h + 1..];
      ConversionStays(f, [NUL]);
      ConversionStays(f, m);
      FormatTail(f, [NUL], h + 1);
      FormatTail(f, m, h + 1);
      hide Hashes, Converted, Rendered, ConversionAt;
      if TakesArg(f[h]) {
        PrintsBehind(rest, m, x[1..], y);
        ConcatParts(x, y, 1);
        TakingArgument(f + [NUL], rest + [NUL], x, x[1..], h);
        TakingArgument(f + m, rest + m, x + y, x[1..] + y, h);
        ConcatAssoc(Converted(f[h], h > 1, x[0]), Rendered(rest + [NUL], x[1..]), Rendered(m, y));
      } else {
        PrintsBehind(rest, m, x, y);
        TakingNone(f + [NUL], rest + [NUL], x, h);
        TakingNone(f + m, rest + m, x + y, h);
        ConcatAssoc(if f[h] == PERCENT then [PERCENT] else [], Rendered(rest + [NUL], x), Rendered(m, y));
      }
    }
  }

  /** What is printed from a conversion on that takes an argument, and from one that takes none. */
  lemma TakingArgument(m: seq<byte>, rest: seq<byte>, args: seq<Arg>, later: seq<Arg>, h: nat)
    requires m != [] && m[0] == PERCENT && h == ConversionAt(m) < |m| && TakesArg(m[h]) && args != [] && ArgsOk(args)
    requires rest == m[h + 1..] && later == args[1..]
    requires args[0].Word? == TakesWord(m[h]) && WellFormed(rest, later)
    ensures WellFormed(m, args) && args[0].Ok() && ArgsOk(later)
    ensures Rendered(m, args) == Converted(m[h], h > 1, args[0]) + Rendered(rest, later)
  {
    hide Converted, Hashes;
  }

  lemma TakingNone(m: seq<byte>, rest: seq<byte>, args: seq<Arg>, h: nat)
    requires m != [] && m[0] == PERCENT && h == ConversionAt(m) < |m| && !TakesArg(m[h]) && ArgsOk(args)
    requires rest == m[h + 1..] && WellFormed(rest, args)
    ensures WellFormed(m, args)
    ensures Rendered(m, args) == (if m[h] == PERCENT then [PERCENT] else []) + Rendered(rest, args)
  {
    hide Converted, Hashes;
  }

  lemma FormatTail(f: seq<byte>, m: seq<byte>, k: nat)
    requires k <= |f| && f != []
    ensures (f + m)[k..] == f[k..] + m && (f + m)[0] == f[0]
    ensures k > 0 ==> (f + m)[k - 1] == f[k - 1]
  {
  }

  /** What follows a format does not change where its conversion is, when the conversion is all there. */
  lemma ConversionStays(f: seq<byte>, m: seq<byte>)
    requires f != [] && f[0] == PERCENT && ConversionAt(f) < |f|
    ensures ConversionAt(f + m) == ConversionAt(f)
  {
    FormatTail(f, m, 1);
    HashesStay(f[1..], m);
  }

  lemma {:induction false} HashesStay(f: seq<byte>, m: seq<byte>)
    requires Hashes(f) < |f|
    ensures Hashes(f + m) == Hashes(f)
  {
    if f[0] == HASH {
      HashesStay(f[1..], m);
      ConcatParts(f, m, 1);
    }
  }

  // ---- printing

  /** puts: every character up to the terminator of the C string that memory begins with. */
  method Puts(memory: seq<byte>, ghost text: seq<byte>, out: Output)
    requires |text| < |memory| && memory[..|text|] == text && memory[|text|] == NUL && NoNul(text)
    modifies out
    ensures out.written == old(out.written) + text
  {
    var index := 0;
    while memory[index] != NUL
      invariant index <= |text| && out.written == old(out.written) + text[..index]
      decreases |text| - index
    {
      assert text[..index + 1] == text[..index] + [text[index]];
      ConcatAssoc(old(out.written), text[..index], [text[index]]);
      out.Write([memory[index]]);
      index := index + 1;
    }
    assert text[..|text|] == text;
  }

  lemma TextIsPrefix(a: array<byte>, at: nat, text: seq<byte>)
    requires TextAt(a, at, text)
    ensures a[at..][..|text|] == text && a[at..][|text|] == NUL && |text| < |a[at..]|
  {
  }

  /** The "%x" and "%#x" conversions. */
  method PutHex(w: nat, alternate: bool, out: Output)
    requires w < WORD
    modifies out
    ensures out.written == old(out.written) + if alternate then Hex8(w) else Digits(w, 16)
  {
    hide Digits;
    FitsBuffer(w, 16);
    var convBuf := new byte[64];
    if !alternate {
      Itoa(w, convBuf, 0, 16);
      TextIsPrefix(convBuf, 0, Digits(w, 16));
      Puts(convBuf[0..], Digits(w, 16), out);
    } else {
      Hex8IsWord(w);
      Itoa(w, convBuf, 8, 16);
      var startingIndex := StrLen(convBuf, 8, 8 + |Digits(w, 16)|);
      var i := startingIndex;
      while i < 8
        invariant startingIndex <= i <= 8 && out.written == old(out.written)
        invariant TextAt(convBuf, 8, Digits(w, 16))
        invariant forall k :: startingIndex <= k < i ==> convBuf[k] == ZERO
      {
        convBuf[i] := ZERO;
        i := i + 1;
      }
      assert TextAt(convBuf, startingIndex, Hex8(w));
      TextIsPrefix(convBuf, startingIndex, Hex8(w));
      Puts(convBuf[startingIndex..], Hex8(w), out);
    }
  }

  /** The "%u" conversion. */
  method PutUnsigned(w: nat, out: Output)
    requires w < WORD
    modifies out
    ensures out.written == old(out.written) + Digits(w, 10)
  {
    hide Digits;
    FitsBuffer(w, 10);
    var convBuf := new byte[36];
    Itoa(w, convBuf, 0, 10);
    TextIsPrefix(convBuf, 0, Digits(w, 10));
    Puts(convBuf[0..], Digits(w, 10), out);
  }

  /** The "%d" conversion: negating a negative word subtracts it from 2 to the 32. */
  method PutSigned(w: nat, out: Output)
    requires w < WORD
    modifies out
    ensures out.written == old(out.written) + Signed(w)
  {
    hide Digits;
    var convBuf := new byte[36];
    if w >= WORD / 2 {
      FitsBuffer(WORD - w, 10);
      convBuf[0] := MINUS;
      Itoa(WORD - w, convBuf, 1, 10);
    } else {
      FitsBuffer(w, 10);
      Itoa(w, convBuf, 0, 10);
    }
    assert TextAt(convBuf, 0, Signed(w));
    TextIsPrefix(convBuf, 0, Signed(w));
    Puts(convBuf[0..], Signed(w), out);
  }

  /** One conversion that takes an argument. */
  method Convert(c: byte, alternate: bool, arg: Arg, out: Output)
    requires arg.Ok() && if TakesWord(c) then arg.Word? else c == LOW_S && arg.Text?
    modifies out
    ensures out.written == old(out.written) + Converted(c, alternate, arg)
  {
    hide Digits, Hex8, Signed;
    if c == LOW_X {
      PutHex(arg.w, alternate, out);
    } else if c == LOW_U {
      PutUnsigned(arg.w, out);
    } else if c == LOW_D {
      PutSigned(arg.w, out);
    } else if c == LOW_C {
      out.Write([(arg.w % 256) as byte]);
    } else {
      Puts(arg.s + [NUL], arg.s, out);
    }
  }

  /** What is still to be printed when buf is at a character of the format and esp at an argument. */
  ghost predicate Pending(f: seq<byte>, args: seq<Arg>, buf: nat, esp: nat, text: seq<byte>, stop: nat) {
    && buf < |f| && esp <= |args|
    && WellFormed(f[buf..], args[esp..]) && ArgsOk(args[esp..])
    && Rendered(f[buf..], args[esp..]) == text && buf + StopAt(f[buf..], args[esp..]) == stop
  }

  lemma PendingStart(f: seq<byte>, args: seq<Arg>)
    requires WellFormed(f, args) && ArgsOk(args)
    ensures Pending(f, args, 0, 0, Rendered(f, args), StopAt(f, args))
  {
    assert f[0..] == f && args[0..] == args;
  }

  lemma PendingEnd(f: seq<byte>, args: seq<Arg>, buf: nat, esp: nat, text: seq<byte>, stop: nat)
    requires Pending(f, args, buf, esp, text, stop)
    ensures buf < |f| && esp <= |args| && buf <= stop < |f|
    ensures f[buf] == NUL ==> text == [] && buf == stop
  {
    assert f[buf..][stop - buf] == f[stop];
  }

  lemma PendingLiteral(f: seq<byte>, args: seq<Arg>, buf: nat, esp: nat, text: seq<byte>, stop: nat)
    requires Pending(f, args, buf, esp, text, stop) && f[buf] != PERCENT && f[buf] != NUL
    ensures [f[buf]] <= text && Pending(f, args, buf + 1, esp, text[1..], stop)
  {
    assert f[buf..][1..] == f[buf + 1..];
  }

  lemma PendingConversion(f: seq<byte>, args: seq<Arg>, buf: nat, esp: nat, text: seq<byte>, stop: nat, at: nat)
    requires Pending(f, args, buf, esp, text, stop) && f[buf] == PERCENT
    requires at == buf + 1 + Hashes(f[buf + 1..])
    ensures at < |f|
    ensures TakesArg(f[at]) ==> esp < |args| && args[esp].Ok() && args[esp].Word? == TakesWord(f[at])
    ensures
      if TakesArg(f[at]) then
        var shown := Converted(f[at], at > buf + 1, args[esp]);
        shown <= text && Pending(f, args, at + 1, esp + 1, text[|shown|..], stop)
      else if f[at] == PERCENT then [PERCENT] <= text && Pending(f, args, at + 1, esp, text[1..], stop)
      else Pending(f, args, at + 1, esp, text, stop)
  {
    hide Converted, Hashes;
    var g, rest := f[buf..], args[esp..];
    var h := ConversionAt(g);
    assert g[1..] == f[buf + 1..];
    assert h < |g| && g[h] == f[at] && g[h + 1..] == f[at + 1..];
    if TakesArg(f[at]) {
      assert rest != [] && rest[0] == args[esp] && rest[1..] == args[esp + 1..];
      assert rest[0].Ok();
      ArgsOkTail(rest);
    }
  }

  lemma ArgsOkTail(args: seq<Arg>)
    requires args != [] && ArgsOk(args)
    ensures ArgsOk(args[1..])
  {
  }

  /** The flags of a conversion: any '#' asks for the alternate form. */
  method SkipHashes(f: seq<byte>, buf: nat) returns (at: nat, alternate: bool)
    requires buf <= |f| && buf + Hashes(f[buf..]) < |f|
    ensures at == buf + Hashes(f[buf..]) && alternate == (at > buf)
  {
    at, alternate := buf, false;
    while f[at] == HASH
      invariant buf <= at < |f| && alternate == (at > buf)
      invariant at + Hashes(f[at..]) == buf + Hashes(f[buf..])
      decreases |f| - at
    {
      assert f[at..][1..] == f[at + 1..];
      alternate := true;
      at := at + 1;
    }
  }

  lemma Shown(written: seq<byte>, shown: seq<byte>, text: seq<byte>)
    requires shown <= text
    ensures (written + shown) + text[|shown|..] == written + text
  {
  }

  /**
   printf on the memory that a format begins: what reaches the screen is what the format stands for, and
   the result is how many bytes of it were read.
   */
  method Printf(format: seq<byte>, args: seq<Arg>, out: Output) returns (n: nat)
    requires ArgsOk(args) && WellFormed(format, args)
    modifies out
    ensures out.written == old(out.written) + Rendered(format, args)
    ensures n == StopAt(format, args)
  {
    hide Pending, Rendered, WellFormed, ArgsOk, Converted, Hashes, StopAt;
    ghost var all, stop := out.written + Rendered(format, args), StopAt(format, args);
    ghost var text := Rendered(format, args);
    var buf, esp := 0, 0;
    PendingStart(format, args);
    PendingEnd(format, args, buf, esp, text, stop);
    while format[buf] != NUL
      invariant Pending(format, args, buf, esp, text, stop) && buf < |format|
      invariant out.written + text == all
      decreases |format| - buf
    {
      PendingEnd(format, args, buf, esp, text, stop);
      ghost var was := out.written;
      ghost var shown: seq<byte> := [];
      if format[buf] == PERCENT {
        ghost var conversion := buf + 1 + Hashes(format[buf + 1..]);
        PendingConversion(format, args, buf, esp, text, stop, conversion);
        var at, alternate := SkipHashes(format, buf + 1);
        if TakesArg(format[at]) {
          shown := Converted(format[at], alternate, args[esp]);
          Convert(format[at], alternate, args[esp], out);
          esp := esp + 1;
        } else if format[at] == PERCENT {
          shown := [PERCENT];
          out.Write([PERCENT]);
        }
        buf := at;
      } else {
        PendingLiteral(format, args, buf, esp, text, stop);
        shown := [format[buf]];
        out.Write([format[buf]]);
      }
      Shown(was, shown, text);
      text := text[|shown|..];
      buf := buf + 1;
      PendingEnd(format, args, buf, esp, text, stop);
    }
    PendingEnd(format, args, buf, esp, text, stop);
    n := buf;
  }

  /** printf("%d") of -5. */
  method PrintMinusFive(out: Output) returns (n: nat)
    requires out.written == []
    modifies out
    ensures out.written == [45, 53] && n == 2
  {
    var format, args := [PERCENT, LOW_D, NUL], [Word(0xFFFF_FFFB)];
    MinusFive();
    n := Printf(format, args, out);
  }

  lemma MinusFive()
    ensures var m, args := [PERCENT, LOW_D, NUL], [Word(0xFFFF_FFFB)];
            WellFormed(m, args) && ArgsOk(args) && Rendered(m, args) == [45, 53] && StopAt(m, args) == 2
  {
    var m, args := [PERCENT, LOW_D, NUL], [Word(0xFFFF_FFFB)];
    assert OneConversion(0, LOW_D) == m;
    ConversionParts(0, LOW_D, args);
    assert Signed(0xFFFF_FFFB) == [MINUS] + Digits(5, 10) == [45, 53];
    assert ConversionAt(m) == 1 && m[2..] == [NUL] && args[1..] == [];
  }
}
