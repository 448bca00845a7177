/** The `%d` branch of the console reader, and its round trip with the printer. */
module NumberScan {
  import opened Numbers
  import opened Numerals

  predicate IsDigit(c: char) {
    '0' <= c <= '9'
  }

  function DigitValue(c: char): nat
    requires IsDigit(c)
  {
    c as int - '0' as int
  }

  /** The local variables of the scanning loop. */
  datatype Scan = Scan(found: bool, negative: bool, positive: bool, number: nat)

  const START: Scan := Scan(false, false, false, 0)

  /** The loop from position `i` on: final variables and where it stops. 64-bit arithmetic wraps around. */
  function ScanFrom(s: string, i: nat, t: Scan): (r: (Scan, nat))
    requires i <= |s|
    ensures i <= r.1 <= |s|
    decreases |s| - i
  {
    if i == |s| then (t, i)
    else if s[i] == ' ' then (if t.found then (t, i) else ScanFrom(s, i + 1, t))
    else if !t.negative && s[i] == '-' then ScanFrom(s, i + 1, t.(negative := true))
    else if !t.positive && s[i] == '+' then ScanFrom(s, i + 1, t.(positive := true))
    else if IsDigit(s[i]) then
      ScanFrom(s, i + 1, t.(found := true, number := (t.number * 10 % UINT64 + DigitValue(s[i])) % UINT64))
    else (t, i)
  }

  /** The stored value: negated in 64 bits, then cut to 32. */
  function Value(t: Scan): int32 {
    Wrap32(if t.negative then (UINT64 - t.number) % UINT64 else t.number)
  }

  /** Character `k` ends the number: a blank behind a digit, a sign that was there before, or what no number contains. */
  predicate EndsAt(s: string, k: nat)
    requires k < |s|
  {
    if s[k] == ' ' then DigitsIn(s[..k]) != ""
    else if s[k] == '-' || s[k] == '+' then s[k] in s[..k]
    else !('0' <= s[k] <= '9')
  }

  /** The loop's variables tell what has been read of the first `i` characters. */
  ghost predicate ReadSoFar(s: string, i: nat, t: Scan) {
    && i <= |s| && t.number == Horner(DigitsIn(s[..i]), 10) % UINT64
    && (t.found <==> DigitsIn(s[..i]) != "") && (t.negative <==> '-' in s[..i]) && (t.positive <==> '+' in s[..i])
    && forall k :: 0 <= k < i ==> !EndsAt(s, k)
  }

  /** One more character. */
  function ReadOne(t: Scan, c: char): Scan {
    if c == ' ' then t
    else if c == '-' then t.(negative := true)
    else if c == '+' then t.(positive := true)
    else if IsDigit(c) then t.(found := true, number := (t.number * 10 % UINT64 + DigitValue(c)) % UINT64)
    else t
  }

  lemma OneMoreCharacter(s: string, i: nat)
    requires i < |s|
    ensures DigitsIn(s[..i + 1]) == if IsDigit(s[i]) then DigitsIn(s[..i]) + [s[i]] else DigitsIn(s[..i])
    ensures forall c :: c in s[..i + 1] <==> c in s[..i] || c == s[i]
  {
    assert s[..i + 1] == s[..i] + [s[i]];
    DigitsSnoc(s[..i], s[i]);
  }

  lemma HornerWraps(d: string, c: char)
    requires IsDigit(c)
    ensures (Horner(d, 10) % UINT64 * 10 % UINT64 + DigitValue(c)) % UINT64 == Horner(d + [c], 10) % UINT64
  {
    HornerSnoc(d, c, 10);
    hide Horner;
    var h, v := Horner(d, 10), DigitValue(c);
    var q, r := h / UINT64, h % UINT64;
    var q', r' := r * 10 / UINT64, r * 10 % UINT64;
    assert h * 10 + v == (q * 10 + q') * UINT64 + (r' + v);
    Modulo(q * 10 + q', r' + v);
  }

  lemma Modulo(q: nat, x: nat)
    ensures (q * UINT64 + x) % UINT64 == x % UINT64
  {
    var p := x / UINT64;
    assert q * UINT64 + x == (q + p) * UINT64 + x % UINT64;
  }

  lemma NotTheEnd(s: string, i: nat)
    requires i < |s| && !EndsAt(s, i)
    ensures s[i] == ' ' || s[i] == '-' || s[i] == '+' || IsDigit(s[i])
  {
  }

  lemma NoEndYet(s: string, i: nat)
    requires i < |s| && !EndsAt(s, i) && forall k :: 0 <= k < i ==> !EndsAt(s, k)
    ensures forall k :: 0 <= k < i + 1 ==> !EndsAt(s, k)
  {
    hide EndsAt;
  }

  /** The last character a number is read from joins those before it. */
  lemma ReadMore(s: string, i: nat, t: Scan)
    requires ReadSoFar(s, i, t) && i < |s| && !EndsAt(s, i)
    ensures ReadSoFar(s, i + 1, ReadOne(t, s[i]))
  {
    NotTheEnd(s, i);
    NoEndYet(s, i);
    OneMoreCharacter(s, i);
    hide EndsAt, DigitsIn, Horner, DigitValue;
    if IsDigit(s[i]) {
      HornerWraps(DigitsIn(s[..i]), s[i]);
    }
  }

  lemma ScanStep(s: string, i: nat, t: Scan)
    requires ReadSoFar(s, i, t) && i < |s|
    ensures ScanFrom(s, i, t) == if EndsAt(s, i) then (t, i) else ScanFrom(s, i + 1, ReadOne(t, s[i]))
  {
    hide Horner, DigitsIn, DigitValue;
  }

  /**
    The loop reads up to the first character that ends the number; the number is that of the digits among those read,
    modulo 2^64, and negative if a minus is among them.
   */
  lemma {:induction false} ScanMeans(s: string, i: nat, t: Scan)
    requires ReadSoFar(s, i, t)
    ensures var (u, k) := ScanFrom(s, i, t); ReadSoFar(s, k, u) && (k < |s| ==> EndsAt(s, k))
    decreases |s| - i
  {
    if i < |s| {
      ScanStep(s, i, t);
      if !EndsAt(s, i) {
        ReadMore(s, i, t);
        hide ScanFrom, ReadSoFar, EndsAt, ReadOne;
        ScanMeans(s, i + 1, ReadOne(t, s[i]));
      }
    }
  }

  /** The 32-bit number a value stands for, by its remainder. */
  lemma ValueMeans(t: Scan)
    requires t.number < UINT64
    ensures (Value(t) - (if t.negative then -(t.number as int) else t.number)) % 0x1_0000_0000 == 0
  {
    var n := if t.negative then (UINT64 - t.number) % UINT64 else t.number;
    Congruent(n);
    if t.negative {
      var q := (Value(t) - n) / UINT32;
      assert Value(t) - n == q * UINT32;
      assert t.number > 0 ==> Value(t) + t.number == (q + UINT32) * UINT32;
      Multiple(q + UINT32);
    }
  }

  lemma Congruent(x: int)
    ensures (Wrap32(x) - x) % 0x1_0000_0000 == 0
  {
    var q, r := x / UINT32, x % UINT32;
    assert Wrap32(x) - x == -q * UINT32 || Wrap32(x) - x == (-q - 1) * UINT32;
    Multiple(-q);
    Multiple(-q - 1);
  }

  lemma Multiple(q: int)
    ensures q * UINT32 % UINT32 == 0
  {
  }

  lemma Starts(s: string)
    ensures ReadSoFar(s, 0, START)
  {
    assert s[..0] == "";
  }

  /** Reads a number from `buffer`; `rest` is the position the reader is left at. */
  method ScanNumber(buffer: string) returns (value: int32, rest: nat)
    ensures rest == ScanFrom(buffer, 0, START).1 <= |buffer|
    ensures value == Value(ScanFrom(buffer, 0, START).0)
    ensures rest < |buffer| ==> EndsAt(buffer, rest)
    ensures forall k :: 0 <= k < rest ==> !EndsAt(buffer, k)
    ensures var n := Horner(DigitsIn(buffer[..rest]), 10) % 0x1_0000_0000_0000_0000;
      (value - (if '-' in buffer[..rest] then -n else n)) % 0x1_0000_0000 == 0
  {
    hide Value, EndsAt, Horner, DigitsIn;
    var found, negative, positive, number: nat := false, false, false, 0;
    rest := 0;
    while rest < |buffer|
      invariant rest <= |buffer|
      invariant ScanFrom(buffer, rest, Scan(found, negative, positive, number)) == ScanFrom(buffer, 0, START)
      decreases |buffer| - rest
    {
      if buffer[rest] == ' ' {
        if found {
          break;
        }
      } else {
        if !negative && buffer[rest] == '-' {
          negative := true;
          rest := rest + 1;
          continue;
        }
        if !positive && buffer[rest] == '+' {
          positive := true;
          rest := rest + 1;
          continue;
        }
        if IsDigit(buffer[rest]) {
          number := number * 10 % UINT64;
          number := (number + DigitValue(buffer[rest])) % UINT64;
        } else {
          break;
        }
        found := true;
      }
      rest := rest + 1;
    }
    value := Value(Scan(found, negative, positive, number));
    Starts(buffer);
    ScanMeans(buffer, 0, START);
    ReadMeans(buffer, rest, ScanFrom(buffer, 0, START).0);
  }

  lemma ReadMeans(s: string, i: nat, t: Scan)
    requires ReadSoFar(s, i, t)
    ensures var n := Horner(DigitsIn(s[..i]), 10) % 0x1_0000_0000_0000_0000;
      (Value(t) - (if '-' in s[..i] then -n else n)) % 0x1_0000_0000 == 0
    ensures i <= |s| && forall k :: 0 <= k < i ==> !EndsAt(s, k)
  {
    hide EndsAt, Horner, DigitsIn, Value;
    ValueMeans(t);
  }

  /** One digit. */
  lemma ScanDigit(s: string, k: nat, d: nat, t: Scan)
    requires k < |s| && d < 10 && s[k] == DigitChar(d, true) && t.number * 10 + d < UINT64
    ensures ScanFrom(s, k, t) == ScanFrom(s, k + 1, t.(found := true, number := t.number * 10 + d))
  {
    DigitRead(d);
  }

  lemma TextSplit(n: nat)
    ensures n < 10 ==> Text(n, 10, true) == [DigitChar(n, true)]
    ensures n >= 10 ==> Text(n, 10, true) == Text(n / 10, 10, true) + [DigitChar(n % 10, true)]
  {
  }

  lemma Slices(s: string, i: nat, a: string, b: string)
    requires i + |a| + |b| <= |s| && s[i..i + |a| + |b|] == a + b
    ensures s[i..i + |a|] == a && s[i + |a|..i + |a| + |b|] == b
  {
    var t := s[i..i + |a| + |b|];
    assert s[i..i + |a|] == t[..|a|] == a;
    assert s[i + |a|..i + |a| + |b|] == t[|a|..] == b;
  }

  lemma QuotientOfTen(n: nat)
    requires n >= 10
    ensures n / 10 < n && n / 10 * 10 + n % 10 == n
  {
  }

  /** A digit string leads to the number it denotes. */
  lemma {:induction false} ScanText(s: string, i: nat, n: nat, t: Scan)
    requires n < UINT64 && t.number == 0
    requires i + |Text(n, 10, true)| <= |s| && s[i..i + |Text(n, 10, true)|] == Text(n, 10, true)
    ensures ScanFrom(s, i, t) == ScanFrom(s, i + |Text(n, 10, true)|, t.(found := true, number := n))
    decreases n
  {
    hide *;
    TextSplit(n);
    if n < 10 {
      assert s[i] == s[i..i + 1][0];
      ScanDigit(s, i, n, t);
    } else {
      var head, last := Text(n / 10, 10, true), [DigitChar(n % 10, true)];
      QuotientOfTen(n);
      Slices(s, i, head, last);
      ScanText(s, i, n / 10, t);
      var k := i + |head|;
      assert s[k] == s[k..k + 1][0];
      ScanDigit(s, k, n % 10, t.(found := true, number := n / 10));
    }
  }

  lemma DigitRead(d: nat)
    requires d < 10
    ensures IsDigit(DigitChar(d, true)) && DigitValue(DigitChar(d, true)) == d
    ensures DigitChar(d, true) != ' ' && DigitChar(d, true) != '-' && DigitChar(d, true) != '+'
  {
  }

  lemma ScanZero(s: string, k: nat, t: Scan)
    requires k < |s| && s[k] == '0' && t.number == 0
    ensures ScanFrom(s, k, t) == ScanFrom(s, k + 1, t.(found := true))
  {
  }

  lemma RepeatStep(k: int)
    ensures Repeat('0', k) == if k <= 0 then "" else "0" + Repeat('0', k - 1)
  {
  }

  /** Padding zeros change nothing but that a digit has been seen. */
  lemma {:induction false} ScanZeros(s: string, i: nat, k: int, t: Scan)
    requires t.number == 0 && i + |Repeat('0', k)| <= |s| && s[i..i + |Repeat('0', k)|] == Repeat('0', k)
    ensures exists found :: ScanFrom(s, i, t) == ScanFrom(s, i + |Repeat('0', k)|, t.(found := found))
    decreases k
  {
    hide *;
    RepeatStep(k);
    if k <= 0 {
      assert t == t.(found := t.found);
    } else {
      var rest, t' := Repeat('0', k - 1), t.(found := true);
      Slices(s, i, "0", rest);
      assert s[i] == s[i..i + 1][0];
      ScanZero(s, i, t);
      ScanZeros(s, i + 1, k - 1, t');
      var found :| ScanFrom(s, i + 1, t') == ScanFrom(s, i + 1 + |rest|, t'.(found := found));
      assert t'.(found := found) == t.(found := found);
    }
  }

  /** The text that follows a printed number: nothing, a space, or what no number contains. */
  predicate Ends(rest: string) {
    rest == "" || (!IsDigit(rest[0]) && rest[0] != '-' && rest[0] != '+')
  }

  /**
    Scanning what was printed gives the number back, for every 32-bit value and every minimum number of
    digits, including padded negatives, whose zeros stand in front of the sign.
   */
  lemma ScanOfPrinted(v: int32, longT: bool, minDigit: int, rest: string)
    requires Ends(rest)
    ensures var out := Printed(Magnitude(v, longT), v < 0, 10, true, minDigit);
      var (t, i) := ScanFrom(out + rest, 0, START);
      Value(t) == v && i == |out|
  {
    hide *;
    var n := Magnitude(v, longT);
    var text := Text(n, 10, true);
    var zeros, tail := Repeat('0', minDigit - |text|), (if v < 0 then "-" else "") + text;
    var out := Printed(n, v < 0, 10, true, minDigit);
    var s := out + rest;
    PrintedParts(n, v < 0, minDigit);
    Slices(s, 0, zeros, tail);
    StartFields();
    ScanZeros(s, 0, minDigit - |text|, START);
    EndOfNumber(out, rest);
    var found :| ScanFrom(s, 0, START) == ScanFrom(s, |zeros|, START.(found := found));
    ScanUnpadded(s, |zeros|, |out|, v, longT, START.(found := found));
  }

  lemma StartFields()
    ensures START == Scan(false, false, false, 0)
  {
  }

  lemma PrintedParts(n: nat, negative: bool, minDigit: int)
    ensures var text := Text(n, 10, true);
      Printed(n, negative, 10, true, minDigit) == Repeat('0', minDigit - |text|) + ((if negative then "-" else "") + text)
  {
    hide Text, Repeat;
  }

  lemma EndOfNumber(out: string, rest: string)
    requires Ends(rest)
    ensures |out| < |out + rest| ==>
      var c := (out + rest)[|out|]; !IsDigit(c) && c != '-' && c != '+'
  {
    assert rest != "" ==> (out + rest)[|out|] == rest[0];
  }

  lemma ScanSign(s: string, k: nat, t: Scan)
    requires k < |s| && s[k] == '-' && !t.negative
    ensures ScanFrom(s, k, t) == ScanFrom(s, k + 1, t.(negative := true))
  {
  }

  lemma ScanStops(s: string, k: nat, t: Scan)
    requires k <= |s| && t.found && (k < |s| ==> !IsDigit(s[k]) && s[k] != '-' && s[k] != '+')
    ensures ScanFrom(s, k, t) == (t, k)
  {
  }

  /** From the sign on: a printed number scanned up to its end. */
  lemma ScanUnpadded(s: string, from: nat, end: nat, v: int32, longT: bool, t0: Scan)
    requires from <= end <= |s| && !t0.negative && !t0.positive && t0.number == 0
    requires s[from..end] == (if v < 0 then "-" else "") + Text(Magnitude(v, longT), 10, true)
    requires end < |s| ==> !IsDigit(s[end]) && s[end] != '-' && s[end] != '+'
    ensures var (t, i) := ScanFrom(s, from, t0); Value(t) == v && i == end
  {
    hide *;
    SignedMagnitude(v, longT);
    var n := Magnitude(v, longT);
    var k, t := from, t0;
    if v < 0 {
      assert s[from] == s[from..end][0] == '-';
      ScanSign(s, from, t0);
      k, t := from + 1, t0.(negative := true);
    }
    assert s[k..end] == s[from..end][k - from..] == Text(n, 10, true);
    assert k + |Text(n, 10, true)| == end;
    ScanText(s, k, n, t);
    var done := t.(found := true, number := n);
    ScanStops(s, end, done);
    ValueOfMagnitude(v, longT, done);
  }

  /** Cutting the wrapped negation to 32 bits undoes the sign, also for the most negative number. */
  lemma ValueOfMagnitude(v: int32, longT: bool, t: Scan)
    requires t.negative == (v < 0) && t.number == Magnitude(v, longT)
    ensures Value(t) == v
  {
    if v == INT_MIN && !longT {
      assert UINT64 - t.number == 0x8000_0000;
    } else if v < 0 {
      var k: nat := -(v as int);
      assert UINT64 - k == (UINT32 - 1) * UINT32 + (UINT32 - k);
      assert (UINT64 - k) % UINT32 == UINT32 - k;
    }
  }
}
