/** `printf_number` and the `%d` branch of the console reader. */
module Numbers {
  import opened Numerals

  const UINT64: nat := 0x1_0000_0000_0000_0000
  const UINT32: nat := 0x1_0000_0000
  const INT_MIN: int := -0x8000_0000

  type int32 = v: int | INT_MIN <= v < 0x8000_0000

  function DigitChar(d: nat, uppercase: bool): char
    requires d < 16
  {
    if uppercase then "0123456789ABCDEF"[d] else "0123456789abcdef"[d]
  }

  /** The digits of a number, most significant first. */
  function Text(n: nat, radix: nat, uppercase: bool): (s: string)
    requires 2 <= radix <= 16
    ensures |s| > 0
  {
    if n < radix then [DigitChar(n, uppercase)]
    else Text(n / radix, radix, uppercase) + [DigitChar(n % radix, uppercase)]
  }

  function Repeat(c: char, n: int): string {
    if n <= 0 then "" else [c] + Repeat(c, n - 1)
  }

  /**
    The 64-bit number printed for a signed argument. Negation wraps in 32 bits. A `long` is then taken as unsigned;
    an `int` is extended with its sign.
   */
  function Magnitude(v: int32, longT: bool): nat {
    if v >= 0 then v
    else if v == INT_MIN && !longT then UINT64 + v
    else -(v as int)
  }

  function Absolute(v: int): nat {
    if v < 0 then -v else v
  }

  lemma SignedMagnitude(v: int32, longT: bool)
    ensures Magnitude(v, longT) < UINT64
    ensures Magnitude(v, longT) == Absolute(v) <==> longT || v != INT_MIN
    ensures v == INT_MIN ==> v < 0
  {
  }

  /** What is printed: zeros up to the minimum number of digits, then the sign, then the digits. */
  function Printed(number: nat, negative: bool, radix: nat, uppercase: bool, minDigit: int): string
    requires 2 <= radix <= 16
  {
    var digits := Text(number, radix, uppercase);
    Repeat('0', minDigit - |digits|) + (if negative then "-" else "") + digits
  }

  /** Different numbers are never printed as the same text behind a sign, whatever the padding. */
  lemma TextTellsNumber(a: nat, b: nat, radix: nat, uppercase: bool, minDigit: int)
    requires 2 <= radix <= 16
    ensures Printed(a, true, radix, uppercase, minDigit) == Printed(b, true, radix, uppercase, minDigit) <==> a == b
  {
    hide Text, Repeat;
    var s, t := Text(a, radix, uppercase), Text(b, radix, uppercase);
    if Printed(a, true, radix, uppercase, minDigit) == Printed(b, true, radix, uppercase, minDigit) {
      SignTellsZeros(minDigit - |s|, s, minDigit - |t|, t);
      TextInjective(a, b, radix, uppercase);
    }
  }

  /** The zeros in front of a sign end where the sign stands. */
  lemma SignTellsZeros(j: int, s: string, k: int, t: string)
    requires Repeat('0', j) + "-" + s == Repeat('0', k) + "-" + t
    ensures s == t
  {
    var y, z := Repeat('0', j), Repeat('0', k);
    Repeated('0', j);
    Repeated('0', k);
    hide Repeat;
    assert (y + "-" + s)[|y|] == '-' && (z + "-" + t)[|z|] == '-';
    assert |y| == |z|;
    assert s == (y + "-" + s)[|y| + 1..] && t == (z + "-" + t)[|z| + 1..];
  }

  lemma {:induction false} Repeated(c: char, n: int)
    ensures forall i :: 0 <= i < |Repeat(c, n)| ==> Repeat(c, n)[i] == c
    decreases n
  {
    if n > 0 {
      Repeated(c, n - 1);
    }
  }

  lemma {:induction false} TextInjective(a: nat, b: nat, radix: nat, uppercase: bool)
    requires 2 <= radix <= 16 && Text(a, radix, uppercase) == Text(b, radix, uppercase)
    ensures a == b
    decreases a
  {
    hide Text, DigitChar;
    var s, t := Text(a, radix, uppercase), Text(b, radix, uppercase);
    LastDigit(a, radix, uppercase);
    LastDigit(b, radix, uppercase);
    DigitsDiffer(a % radix, b % radix, uppercase);
    if a >= radix && b >= radix {
      assert Text(a / radix, radix, uppercase) == s[..|s| - 1] == t[..|t| - 1] == Text(b / radix, radix, uppercase);
      QuotientSmaller(a, radix);
      TextInjective(a / radix, b / radix, radix, uppercase);
      SameQuotient(a, b, radix);
    } else {
      SmallQuotient(a, radix);
      SmallQuotient(b, radix);
    }
  }

  lemma SameQuotient(a: nat, b: nat, radix: nat)
    requires radix > 0 && a / radix == b / radix && a % radix == b % radix
    ensures a == b
  {
    assert a == radix * (a / radix) + a % radix && b == radix * (b / radix) + b % radix;
  }

  lemma LastDigit(n: nat, radix: nat, uppercase: bool)
    requires 2 <= radix <= 16
    ensures var s := Text(n, radix, uppercase); s[|s| - 1] == DigitChar(n % radix, uppercase)
    ensures n < radix ==> |Text(n, radix, uppercase)| == 1
    ensures n >= radix ==> Text(n, radix, uppercase) == Text(n / radix, radix, uppercase) + [DigitChar(n % radix, uppercase)]
    ensures n >= radix ==> |Text(n, radix, uppercase)| > 1
  {
    SmallQuotient(n, radix);
  }

  lemma DigitsDiffer(d: nat, e: nat, uppercase: bool)
    requires d < 16 && e < 16 && DigitChar(d, uppercase) == DigitChar(e, uppercase)
    ensures d == e
  {
  }

  lemma QuotientSmaller(n: nat, radix: nat)
    requires 2 <= radix <= n
    ensures n / radix < n
  {
    var q := n / radix;
    assert n == q * radix + n % radix;
    assert q * radix == 2 * q + q * (radix - 2);
    AtLeastOne(q, radix - 2);
    SmallQuotient(n, radix);
  }

  lemma DigitCharMeans(d: nat, radix: nat, uppercase: bool)
    requires d < 16 && d < radix
    ensures ValueOf(DigitChar(d, uppercase)) == d && (DigitChar(d, uppercase) == '0' <==> d == 0)
    ensures DigitOf(DigitChar(d, uppercase), radix, uppercase)
  {
  }

  lemma Division(n: nat, radix: nat)
    requires radix > 0
    ensures n % radix < radix && n == n / radix * radix + n % radix
  {
  }

  /** What is emitted for a number is its numeral. */
  lemma {:induction false} TextMeans(n: nat, radix: nat, uppercase: bool)
    requires 2 <= radix <= 16
    ensures Numeral(Text(n, radix, uppercase), n, radix, uppercase)
    ensures n > 0 ==> Text(n, radix, uppercase)[0] != '0'
    decreases n
  {
    hide *;
    var c := DigitChar(n % radix, uppercase);
    Division(n, radix);
    DigitCharMeans(n % radix, radix, uppercase);
    LastDigit(n, radix, uppercase);
    SmallQuotient(n, radix);
    if n < radix {
      OneDigit(c, radix, uppercase);
      assert Text(n, radix, uppercase) == [c];
    } else {
      QuotientSmaller(n, radix);
      TextMeans(n / radix, radix, uppercase);
      NumeralGrows(Text(n / radix, radix, uppercase), n / radix, c, radix, uppercase);
    }
  }

  lemma {:induction false} RepeatLength(c: char, n: int)
    ensures |Repeat(c, n)| == if n > 0 then n else 0
    decreases n
  {
    if n > 0 {
      RepeatLength(c, n - 1);
    }
  }

  /** What is printed: the zeros, the sign and the numeral. */
  lemma PrintedMeans(number: nat, negative: bool, radix: nat, uppercase: bool, minDigit: int)
    requires 2 <= radix <= 16
    ensures Prints(Printed(number, negative, radix, uppercase, minDigit), number, negative, radix, uppercase, minDigit)
  {
    hide Text, Repeat, Numeral;
    var digits := Text(number, radix, uppercase);
    var zeros, sign := Repeat('0', minDigit - |digits|), if negative then "-" else "";
    var out := Printed(number, negative, radix, uppercase, minDigit);
    TextMeans(number, radix, uppercase);
    Repeated('0', minDigit - |digits|);
    RepeatLength('0', minDigit - |digits|);
    assert out == zeros + sign + digits;
    assert out[|zeros + sign|..] == digits;
    assert Laid(out, |zeros|, number, negative, radix, uppercase, minDigit);
  }

  function Pow8(k: nat): (p: nat)
    ensures p > 0
  {
    if k == 0 then 1 else 8 * Pow8(k - 1)
  }

  lemma TwentyTwoOctalDigits()
    ensures UINT64 <= Pow8(22)
  {
    assert Pow8(7) == 0x20_0000;
    assert Pow8(14) == 0x400_0000_0000;
    assert Pow8(22) == 0x4_0000_0000_0000_0000;
  }

  lemma Pow8Step(k: nat)
    ensures Pow8(k + 1) == 8 * Pow8(k)
  {
  }

  lemma Pow8Zero()
    ensures Pow8(0) == 1
  {
  }

  function Reverse(s: string): (r: string)
    ensures |r| == |s|
  {
    if s == "" then "" else Reverse(s[1..]) + [s[0]]
  }

  lemma {:induction false} ReverseSnoc(s: string, c: char)
    ensures Reverse(s + [c]) == [c] + Reverse(s)
  {
    if s == "" {
    } else {
      assert (s + [c])[1..] == s[1..] + [c];
      ReverseSnoc(s[1..], c);
    }
  }

  /** One pass of the digit loop: the last digit goes to the buffer, the quotient remains. */
  method EmitDigit(n: nat, radix: nat, uppercase: bool, buffer: array<char>, pos: nat) returns (quotient: nat)
    requires 8 <= radix <= 16 && pos < buffer.Length
    modifies buffer
    ensures buffer[..pos] == old(buffer[..pos])
    ensures quotient < n || n == quotient == 0
    ensures forall p :: n < 8 * p ==> quotient < p
    ensures n > 0 || pos == 0 ==>
      Prefixed(quotient, radix, uppercase, Reverse(buffer[..pos + 1])) ==
        Text(n, radix, uppercase) + Reverse(old(buffer[..pos]))
  {
    hide Text, DigitChar, Prefixed, Reverse;
    ghost var before := buffer[..pos];
    ghost var d := DigitChar(n % radix, uppercase);
    TextPrefixed(n, radix, uppercase, Reverse(before));
    ReverseSnoc(before, d);
    QuotientBound(n, radix);
    buffer[pos] := DigitChar(n % radix, uppercase);
    quotient := n / radix;
    assert buffer[..pos + 1] == before + [d];
  }

  /** Fills the digit buffer, least significant digit first; 22 places always suffice. */
  method FillDigits(number: nat, radix: nat, uppercase: bool, buffer: array<char>) returns (pos: nat)
    requires 8 <= radix <= 16 && number < UINT64 && buffer.Length == 32
    modifies buffer
    ensures 0 < pos <= 22
    ensures Reverse(buffer[..pos]) == Text(number, radix, uppercase)
  {
    hide Text, Prefixed, Pow8, Reverse;
    TwentyTwoOctalDigits();
    Pow8Step(21);
    Pow8Zero();
    assert buffer[..0] == [];
    ReverseNothing();
    var n: nat := EmitDigit(number, radix, uppercase, buffer, 0);
    pos := 1;
    while n > 0
      invariant 0 < pos <= 22 && n < Pow8(22 - pos)
      invariant Prefixed(n, radix, uppercase, Reverse(buffer[..pos])) == Text(number, radix, uppercase)
      decreases 22 - pos
    {
      Pow8Step(22 - pos - 1);
      PrefixedMore(n, radix, uppercase, Reverse(buffer[..pos]));
      n := EmitDigit(n, radix, uppercase, buffer, pos);
      pos := pos + 1;
    }
    PrefixedDone(radix, uppercase, Reverse(buffer[..pos]));
  }

  lemma ReverseNothing()
    ensures Reverse("") == ""
    ensures forall s: string :: s + "" == s
  {
  }

  /** The digits still to come, in front of those already produced. */
  function Prefixed(n: nat, radix: nat, uppercase: bool, s: string): string
    requires 2 <= radix <= 16
  {
    if n == 0 then s else Text(n, radix, uppercase) + s
  }

  lemma PrefixedDone(radix: nat, uppercase: bool, s: string)
    requires 2 <= radix <= 16
    ensures Prefixed(0, radix, uppercase, s) == s
  {
  }

  lemma PrefixedMore(n: nat, radix: nat, uppercase: bool, s: string)
    requires 2 <= radix <= 16 && n > 0
    ensures Prefixed(n, radix, uppercase, s) == Text(n, radix, uppercase) + s
  {
  }

  /** `Prefixed` for the quotient takes up the last digit. */
  lemma TextPrefixed(n: nat, radix: nat, uppercase: bool, s: string)
    requires 2 <= radix <= 16
    ensures Prefixed(n / radix, radix, uppercase, [DigitChar(n % radix, uppercase)] + s) == Text(n, radix, uppercase) + s
  {
    hide *;
    var q, d := n / radix, [DigitChar(n % radix, uppercase)];
    SmallQuotient(n, radix);
    LastDigit(n, radix, uppercase);
    if n < radix {
      PrefixedDone(radix, uppercase, d + s);
      assert Text(n, radix, uppercase) == d;
    } else {
      PrefixedMore(q, radix, uppercase, d + s);
      Regroup(Text(q, radix, uppercase), d, s);
    }
  }

  lemma Regroup(a: string, b: string, c: string)
    ensures a + (b + c) == a + b + c
  {
  }

  lemma AtLeastOne(q: nat, w: nat)
    ensures q > 0 ==> q * w >= w
    ensures q == 0 ==> q * w == 0
  {
    if q > 0 {
      assert q * w == w + (q - 1) * w;
    }
  }

  lemma SmallQuotient(n: nat, radix: nat)
    requires radix > 0
    ensures n < radix ==> n / radix == 0 && n % radix == n
    ensures n >= radix ==> n / radix > 0
  {
    var q := n / radix;
    assert n == q * radix + n % radix;
    AtLeastOne(q, radix);
  }

  lemma QuotientBound(n: nat, radix: nat)
    requires radix >= 8
    ensures n / radix < n || n == n / radix == 0
    ensures forall p :: n < 8 * p ==> n / radix < p
  {
    var q := n / radix;
    assert n == q * radix + n % radix;
    EightTimes(q, radix);
  }

  lemma EightTimes(q: nat, radix: nat)
    requires radix >= 8
    ensures q * radix >= 8 * q
  {
    assert q * radix == 8 * q + q * (radix - 8);
  }

  /** Negation in 32 bits: the most negative number is its own negative. */
  lemma NegateWraps(v: int32)
    requires v < 0
    ensures Wrap32(-(v as int)) == if v == INT_MIN then INT_MIN else -v
  {
  }

  /** The sign and the 64-bit number to print, taken from the argument. */
  method TakeArgument(arg: nat, sign: bool, longT: bool) returns (number: nat, negative: bool)
    requires arg < UINT32
    ensures negative <==> sign && Signed(arg) < 0
    ensures number == (if sign then Magnitude(Signed(arg), longT) else arg) < UINT64
  {
    number, negative := arg, false;
    if sign {
      var val := Signed(arg);
      if val < 0 {
        NegateWraps(val);
        val := Wrap32(-(val as int));
        negative := true;
      }
      if longT {
        number := if val < 0 then UINT32 + val else val; // unsigned long has 32 bits
      } else {
        number := if val < 0 then UINT64 + val else val; // sign-extended to 64 bits
      }
    }
  }

  method PadZeros(count: int) returns (out: string)
    ensures out == Repeat('0', count)
  {
    out := "";
    var i := 0;
    while i < count
      invariant 0 <= i && out + Repeat('0', count - i) == Repeat('0', count)
    {
      assert out + Repeat('0', count - i) == out + "0" + Repeat('0', count - (i + 1));
      out := out + "0";
      i := i + 1;
    }
  }

  /** Emits the buffer from its end to its start. */
  method EmitBackwards(buffer: array<char>, count: nat) returns (out: string)
    requires count <= buffer.Length
    ensures out == Reverse(buffer[..count])
  {
    out := "";
    var pos: nat := count;
    assert buffer[..0] == "";
    while pos > 0
      invariant pos <= count && out + Reverse(buffer[..pos]) == Reverse(buffer[..count])
    {
      pos := pos - 1;
      assert buffer[..pos + 1] == buffer[..pos] + [buffer[pos]];
      ReverseSnoc(buffer[..pos], buffer[pos]);
      assert out + Reverse(buffer[..pos + 1]) == out + [buffer[pos]] + Reverse(buffer[..pos]);
      out := out + [buffer[pos]];
    }
  }

  /** `printf_number` for a 32-bit argument; the characters go to the console one by one. */
  method PrintfNumber(arg: nat, sign: bool, radix: nat, uppercase: bool, longT: bool, minDigit: int) returns (out: string)
    requires arg < UINT32 && 8 <= radix <= 16
    ensures sign ==> out == Printed(Magnitude(Signed(arg), longT), Signed(arg) < 0, radix, uppercase, minDigit)
    ensures sign ==> (out == Printed(Absolute(Signed(arg)), Signed(arg) < 0, radix, uppercase, minDigit) <==>
      longT || Signed(arg) != INT_MIN)
    ensures !sign ==> out == Printed(arg, false, radix, uppercase, minDigit)
    ensures !sign || arg < 0x8000_0000 ==> Prints(out, arg, false, radix, uppercase, minDigit)
    ensures sign && arg > 0x8000_0000 ==> Prints(out, 0x1_0000_0000 - arg, true, radix, uppercase, minDigit)
    ensures sign && arg == 0x8000_0000 ==>
      Prints(out, if longT then 0x8000_0000 else 0xFFFF_FFFF_8000_0000, true, radix, uppercase, minDigit)
  {
    hide Magnitude, Signed, Text, Reverse, Repeat, Prints, Numeral;
    var number, negative := TakeArgument(arg, sign, longT);
    var buffer := new char[32](_ => '\0');
    var pos := FillDigits(number, radix, uppercase, buffer);
    ghost var digits := Text(number, radix, uppercase);
    var zeros := PadZeros(minDigit - pos);
    if negative {
      ghost var before := buffer[..pos];
      ReverseSnoc(before, '-');
      buffer[pos] := '-';
      pos := pos + 1;
      assert buffer[..pos] == before + ['-'];
    }
    var tail := EmitBackwards(buffer, pos);
    assert |Reverse(buffer[..pos])| == pos;
    out := zeros + tail;
    assert tail == (if negative then "-" else "") + digits;
    assert out == zeros + (if negative then "-" else "") + digits;
    if sign {
      TextTellsNumber(Magnitude(Signed(arg), longT), Absolute(Signed(arg)), radix, uppercase, minDigit);
      SignedMagnitude(Signed(arg), longT);
    }
    SignedArgument(arg, longT);
    PrintedMeans(number, negative, radix, uppercase, minDigit);
  }

  /** What a pattern stands for, and what is printed of it. */
  lemma SignedArgument(arg: nat, longT: bool)
    requires arg < UINT32
    ensures Signed(arg) < 0 <==> arg >= 0x8000_0000
    ensures Magnitude(Signed(arg), longT) ==
      if arg < 0x8000_0000 then arg
      else if arg > 0x8000_0000 then 0x1_0000_0000 - arg
      else if longT then 0x8000_0000 else 0xFFFF_FFFF_8000_0000
  {
  }

  /** The 32-bit pattern as a signed number. */
  function Signed(x: nat): int32
    requires x < UINT32
  {
    if x < 0x8000_0000 then x else x - UINT32
  }

  function Wrap32(x: int): int32 {
    Signed(x % UINT32)
  }
}
