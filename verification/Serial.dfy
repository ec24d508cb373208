/** serial.c: numbers and formats, written to a buffer or character by character. */
module Serial {
  import opened Machine

  const NUL := '\0'
  const BUFFER := 512
  const DIGITS := "0123456789abcdefghijklmnopqrstuvwxyz"

  // ----- numerals -----

  function Digit(d: int): char
    requires 0 <= d < 36
  {
    if d < 10 then '0' + d as char else 'a' + (d - 10) as char
  }

  function DigitValue(c: char): int {
    if '0' <= c <= '9' then c as int - '0' as int else c as int - 'a' as int + 10
  }

  lemma DigitIs(d: int)
    requires 0 <= d < 36
    ensures Digit(d) == DIGITS[d]
  {
  }

  lemma DigitReadsBack(d: int)
    requires 0 <= d < 36
    ensures DigitValue(Digit(d)) == d && Digit(d) != NUL && Digit(d) != '-'
    ensures Digit(d) == '0' <==> d == 0
  {
  }

  lemma Product(q: int, base: int)
    requires 2 <= base
    ensures 1 <= q ==> base <= q * base && 2 * q <= q * base
    ensures q <= -1 ==> q * base <= -base
  {
    if 1 <= q {
      assert 0 <= q * (base - 2) && 0 <= (q - 1) * base;
    } else if q <= -1 {
      assert 0 <= (-1 - q) * base;
    }
  }

  /** Quotient and remainder by a base. */
  lemma Split(n: nat, base: int)
    requires 2 <= base
    ensures 0 <= n % base < base && n == n / base * base + n % base
    ensures 0 <= n / base && (base <= n ==> 1 <= n / base < n && n / base <= n / 2)
    ensures n / base == 0 <==> n < base
    ensures n < base ==> n % base == n
  {
    Product(n / base, base);
  }

  /** The numeral of n, most significant digit first. */
  function Numeral(n: nat, base: int): (s: seq<char>)
    requires 2 <= base <= 36
    ensures s != []
    decreases n
  {
    if n < base then [Digit(n)]
    else
      Split(n, base);
      Numeral(n / base, base) + [Digit(n % base)]
  }

  /** One digit more than the numeral of the quotient. */
  lemma NumeralStep(n: nat, base: int)
    requires 2 <= base <= 36 && base <= n
    ensures 1 <= n / base && 0 <= n % base < base
    ensures Numeral(n, base) == Numeral(n / base, base) + [Digit(n % base)]
  {
    Split(n, base);
  }

  /** Positional reading of a numeral. */
  function ValueOf(s: seq<char>, base: int): int
  {
    if s == [] then 0 else ValueOf(s[..|s| - 1], base) * base + DigitValue(s[|s| - 1])
  }

  lemma ValueOfAppend(s: seq<char>, c: char, base: int)
    ensures ValueOf(s + [c], base) == ValueOf(s, base) * base + DigitValue(c)
  {
    var t := s + [c];
    assert t[..|t| - 1] == s;
  }

  /** Reading a numeral back gives the number. */
  lemma {:induction false} NumeralReadsBack(n: nat, base: int)
    requires 2 <= base <= 36
    ensures ValueOf(Numeral(n, base), base) == n
    decreases n
  {
    Split(n, base);
    DigitReadsBack(n % base);
    if n < base {
      ValueOfAppend([], Digit(n), base);
      assert [] + [Digit(n)] == Numeral(n, base);
    } else {
      NumeralStep(n, base);
      NumeralReadsBack(n / base, base);
      ValueOfAppend(Numeral(n / base, base), Digit(n % base), base);
    }
  }

  /** A numeral has no leading zero, unless it is that of 0, and no NUL or sign among its digits. */
  lemma {:induction false} NumeralShape(n: nat, base: int)
    requires 2 <= base <= 36
    ensures Numeral(n, base)[0] == '0' <==> n == 0
    ensures forall c | c in Numeral(n, base) :: c != NUL && c != '-'
    decreases n
  {
    Split(n, base);
    DigitReadsBack(n % base);
    if base <= n {
      NumeralStep(n, base);
      NumeralShape(n / base, base);
    }
  }

  function Power(base: int, j: nat): (p: int)
    requires 1 <= base
    ensures 1 <= p
  {
    if j == 0 then 1
    else
      PositiveProduct(base, Power(base, j - 1));
      base * Power(base, j - 1)
  }

  lemma PositiveProduct(a: int, b: int)
    requires 1 <= a && 1 <= b
    ensures 1 <= a * b
  {
    assert 0 <= (a - 1) * (b - 1);
  }

  lemma DivideTwice(n: nat, a: nat, b: nat)
    requires 1 <= a && 1 <= b
    ensures 1 <= a * b && n / (a * b) == n / a / b
  {
    PositiveProduct(a, b);
    var m, r := n / a, n % a;
    var q, k := m / b, m % b;
    assert n == a * m + r && m == b * q + k;
    assert a * m == a * (b * q) + a * k;
    assert a * (b * q) == a * b * q;
    TimesMore(a, k, b);
    QuotientIs(n, a * b, q);
  }

  lemma PlaceBelow(n: nat, base: int, j: nat)
    requires 2 <= base && 1 <= j
    ensures n / Power(base, j) == n / base / Power(base, j - 1)
  {
    DivideTwice(n, base, Power(base, j - 1));
  }

  /** The character at j from the right is the digit of n's j-th place in the base. */
  lemma {:induction false} NumeralDigits(n: nat, base: int, j: nat)
    requires 2 <= base <= 36 && j < |Numeral(n, base)|
    ensures Numeral(n, base)[|Numeral(n, base)| - 1 - j] == DIGITS[n / Power(base, j) % base]
    decreases j
  {
    if j == 0 {
      LowestDigit(n, base);
      LowestPlace(n, base);
    } else {
      NumeralStep(n, base);
      NumeralDigits(n / base, base, j - 1);
      PlaceBelow(n, base, j);
    }
  }

  lemma LowestDigit(n: nat, base: int)
    requires 2 <= base <= 36
    ensures 0 <= n % base < base && Numeral(n, base)[|Numeral(n, base)| - 1] == DIGITS[n % base]
  {
    Split(n, base);
    DigitIs(n % base);
    if base <= n {
      NumeralStep(n, base);
    }
  }

  lemma LowestPlace(n: nat, base: int)
    requires 1 <= base
    ensures n / Power(base, 0) == n
  {
    QuotientIs(n, Power(base, 0), n);
  }

  lemma NumeralDigitsAll(n: nat, base: int)
    requires 2 <= base <= 36
    ensures var s := Numeral(n, base);
      forall j | 0 <= j < |s| :: s[|s| - 1 - j] == DIGITS[n / Power(base, j) % base]
  {
    var s := Numeral(n, base);
    forall j | 0 <= j < |s|
      ensures s[|s| - 1 - j] == DIGITS[n / Power(base, j) % base]
    {
      NumeralDigits(n, base, j);
    }
  }

  lemma QuotientBelow(n: nat, base: int, p: nat)
    requires 2 <= base && n / base < p
    ensures n < base * p
  {
    TimesMore(base, n / base, p);
  }

  lemma QuotientAbove(n: nat, base: int, p: nat)
    requires 2 <= base && p <= n / base
    ensures base * p <= n
  {
    if p < n / base {
      TimesMore(base, p, n / base);
    }
  }

  lemma PowerStep(base: int, k: nat)
    requires 1 <= base
    ensures Power(base, 0) == 1 && Power(base, 1) == base && Power(base, k + 1) == base * Power(base, k)
  {
    assert Power(base, 1) == base * Power(base, 0);
  }

  /** And there are as many characters as n has places. */
  lemma {:induction false} NumeralPlaces(n: nat, base: int)
    requires 2 <= base <= 36
    ensures n < Power(base, |Numeral(n, base)|)
    ensures if n < base then |Numeral(n, base)| == 1 else Power(base, |Numeral(n, base)| - 1) <= n
    decreases n
  {
    PowerStep(base, 0);
    if base <= n {
      Split(n, base);
      NumeralStep(n, base);
      var k := |Numeral(n / base, base)|;
      NumeralPlaces(n / base, base);
      PowerStep(base, k);
      PowerStep(base, k - 1);
      QuotientBelow(n, base, Power(base, k));
      QuotientAbove(n, base, if base <= n / base then Power(base, k - 1) else 1);
    }
  }

  /** k bits give at most k digits, in whatever base. */
  lemma {:induction false} NumeralLength(n: nat, base: int, k: nat)
    requires 2 <= base <= 36 && 1 <= k && n < Pow2(k)
    ensures |Numeral(n, base)| <= k
    decreases k
  {
    if base <= n {
      Split(n, base);
      NumeralStep(n, base);
      HalfOfPower(n, k);
      NumeralLength(n / base, base, k - 1);
    }
  }

  lemma HalfOfPower(n: nat, k: nat)
    requires 2 <= n < Pow2(k)
    ensures 2 <= k && n / 2 < Pow2(k - 1)
  {
  }

  /** Numerals of 32-bit numbers have at most 32 digits. */
  lemma WordNumeral(n: nat, base: int)
    requires n < TWO32 && 2 <= base <= 36
    ensures |Numeral(n, base)| <= 32
  {
    assert Pow2(8) == 256 && Pow2(16) == 65536 && Pow2(24) == 0x100_0000 && Pow2(32) == TWO32;
    NumeralLength(n, base, 32);
  }

  /** The last loop of itoa, over the first `count` characters. */
  method ReverseFirst(buf: array<char>, count: nat)
    requires count <= buf.Length
    modifies buf
    ensures forall k | 0 <= k < count :: buf[k] == old(buf[count - 1 - k])
    ensures forall k | count <= k < buf.Length :: buf[k] == old(buf[k])
  {
    var j, i := 0, count - 1;
    while j < i
      invariant 0 <= j && i == count - 1 - j && j <= i + 1
      invariant forall k | 0 <= k < j :: buf[k] == old(buf[count - 1 - k])
      invariant forall k | i < k < count :: buf[k] == old(buf[count - 1 - k])
      invariant forall k | j <= k <= i :: buf[k] == old(buf[k])
      invariant forall k | count <= k < buf.Length :: buf[k] == old(buf[k])
    {
      var tmp := buf[j];
      buf[j] := buf[i];
      buf[i] := tmp;
      j, i := j + 1, i - 1;
    }
  }

  /** The last digit of n, and the number before it. */
  method LastDigit(n: nat, base: int) returns (c: char, q: nat)
    requires 2 <= base <= 36
    ensures q != 0 ==> q < n
    ensures Numeral(n, base) == (if q == 0 then [] else Numeral(q, base)) + [c]
  {
    Split(n, base);
    if base <= n {
      NumeralStep(n, base);
    }
    c, q := Digit(n % base), n / base;
  }

  /** The digits of n, least significant first. */
  method PutDigits(buf: array<char>, n: nat, base: int) returns (i: nat)
    requires 2 <= base <= 36 && |Numeral(n, base)| < buf.Length
    modifies buf
    ensures i == |Numeral(n, base)|
    ensures forall k | 0 <= k < i :: buf[k] == Numeral(n, base)[i - 1 - k]
  {
    ghost var s := Numeral(n, base);
    var rest := n;
    i := 0;
    var more := true;
    while more
      invariant 0 <= i <= |s| && 0 <= rest && (more || i == |s|)
      invariant more ==> |Numeral(rest, base)| + i == |s| && s[..|s| - i] == Numeral(rest, base)
      invariant forall k | 0 <= k < i :: buf[k] == s[|s| - 1 - k]
      decreases more, rest
    {
      buf[i], rest := LastDigit(rest, base);
      i := i + 1;
      more := rest != 0;
    }
  }

  /** itoa: the digits come out backwards and are reversed in place. */
  method Itoa(buf: array<char>, n: nat, base: int)
    requires n < TWO32 && 2 <= base <= 36 && 33 <= buf.Length
    modifies buf
    ensures |Numeral(n, base)| <= 32
    ensures buf[..|Numeral(n, base)|] == Numeral(n, base)
    ensures buf[|Numeral(n, base)|] == NUL
    ensures forall j | 0 <= j < |Numeral(n, base)| ::
      buf[|Numeral(n, base)| - 1 - j] == DIGITS[n / Power(base, j) % base]
  {
    WordNumeral(n, base);
    var i := PutDigits(buf, n, base);
    buf[i] := NUL;
    ReverseFirst(buf, i);
    NumeralDigitsAll(n, base);
  }

  // ----- formats -----

  /** An argument of a call: an `int`, or a string without its terminator. */
  datatype Arg = Num(n: int) | Str(s: seq<char>)

  predicate TakesNumber(c: char) {
    c == 'd' || c == 'u' || c == 'x' || c == 'p' || c == '0'
  }

  /** The number a conversion prints: %d the magnitude, the others the same bits unsigned. */
  function Magnitude(c: char, n: int): nat
    requires -TWO31 <= n < TWO31
  {
    if c == 'd' && n < 0 then Wrap(-n) else Wrap(n)
  }

  function BaseOf(c: char): int {
    if c == 'd' || c == 'u' then 10 else 16
  }

  function Sign(c: char, n: int): seq<char> {
    if c == 'd' && n < 0 then "-" else ""
  }

  /** The argument is of the kind the conversion reads. */
  predicate Suits(c: char, arg: Arg) {
    if c == 's' then arg.Str? && NUL !in arg.s
    else (TakesNumber(c) || c == 'c') && arg.Num? && -TWO31 <= arg.n < TWO31
  }

  predicate TakesArgument(c: char) {
    TakesNumber(c) || c == 'c' || c == 's'
  }

  /** What one conversion puts out. */
  function Field(c: char, arg: Arg): seq<char>
    requires Suits(c, arg)
  {
    if c == 's' then arg.s
    else if c == 'c' then [(arg.n % 256) as char]
    else Sign(c, arg.n) + Numeral(Magnitude(c, arg.n), BaseOf(c))
  }

  /** Every conversion finds an argument of its kind, and no % stands at the very end. */
  predicate Matches(format: seq<char>, args: seq<Arg>) {
    if format == [] then true
    else if format[0] != '%' then Matches(format[1..], args)
    else if |format| == 1 then false
    else if TakesArgument(format[1]) then
      args != [] && Suits(format[1], args[0]) && Matches(format[2..], args[1..])
    else Matches(format[2..], args)
  }

  /** The characters a format puts out; an unknown conversion puts out nothing. */
  function Render(format: seq<char>, args: seq<Arg>): seq<char>
    requires Matches(format, args)
  {
    if format == [] then []
    else if format[0] != '%' then [format[0]] + Render(format[1..], args)
    else if TakesArgument(format[1]) then Field(format[1], args[0]) + Render(format[2..], args[1..])
    else Render(format[2..], args)
  }

  function ParseSigned(s: seq<char>): int {
    if s != [] && s[0] == '-' then -ValueOf(s[1..], 10) else ValueOf(s, 10)
  }

  lemma ParsePlain(m: nat)
    ensures ParseSigned(Numeral(m, 10)) == m
    ensures ParseSigned("-" + Numeral(m, 10)) == 0 - m
  {
    var s := Numeral(m, 10);
    NumeralReadsBack(m, 10);
    NumeralShape(m, 10);
    assert s[0] in s;
    assert ("-" + s)[1..] == s;
  }

  lemma SignedField(n: int)
    requires -TWO31 <= n < TWO31
    ensures Field('d', Num(n)) == if n < 0 then "-" + Numeral(-n, 10) else Numeral(n, 10)
  {
    assert Magnitude('d', n) == if n < 0 then -n else n;
    assert Field('d', Num(n)) == Sign('d', n) + Numeral(Magnitude('d', n), 10);
  }

  /** A %d field reads back to its signed argument, the smallest int included. */
  lemma SignedFieldReadsBack(n: int)
    requires -TWO31 <= n < TWO31
    ensures ParseSigned(Field('d', Num(n))) == n
  {
    SignedField(n);
    ParsePlain(if n < 0 then -n else n);
  }

  /** %u in decimal and the others in hexadecimal. */
  lemma UnsignedField(c: char, n: int)
    requires TakesNumber(c) && c != 'd' && -TWO31 <= n < TWO31
    ensures Field(c, Num(n)) == Numeral(if n < 0 then n + 0x1_0000_0000 else n, if c == 'u' then 10 else 16)
  {
    var m, base := if n < 0 then n + 0x1_0000_0000 else n, if c == 'u' then 10 else 16;
    assert Magnitude(c, n) == m && BaseOf(c) == base;
    assert Field(c, Num(n)) == Sign(c, n) + Numeral(m, base);
    assert "" + Numeral(m, base) == Numeral(m, base);
  }

  /** The other number fields read back to the same 32 bits, unsigned: %u from decimal, and the
      rest from hexadecimal. */
  lemma UnsignedFieldReadsBack(c: char, n: int)
    requires TakesNumber(c) && c != 'd' && -TWO31 <= n < TWO31
    ensures c == 'u' ==> ValueOf(Field(c, Num(n)), 10) == if n < 0 then n + 0x1_0000_0000 else n
    ensures c == 'x' || c == 'p' || c == '0' ==> ValueOf(Field(c, Num(n)), 16) == if n < 0 then n + 0x1_0000_0000 else n
  {
    UnsignedField(c, n);
    NumeralReadsBack(if n < 0 then n + TWO32 else n, if c == 'u' then 10 else 16);
  }

  /** strcpy: the text and its terminator, and how long the text is. */
  method StrCpy(str: array<char>, at: nat, text: seq<char>) returns (i: nat)
    requires at + |text| < str.Length
    modifies str
    ensures str[at..at + |text|] == text && str[at + |text|] == NUL
    ensures str[..at] == old(str[..at]) && str[at + |text| + 1..] == old(str[at + |text| + 1..])
    ensures i == |text|
  {
    i := 0;
    while i < |text|
      invariant 0 <= i <= |text| && str[at..at + i] == text[..i]
      invariant str[..at] == old(str[..at]) && str[at + i..] == old(str[at + i..])
    {
      str[at + i] := text[i];
      i := i + 1;
    }
    str[at + i] := NUL;
  }

  /** The text in a buffer, up to its terminator. */
  method TextIn(buf: array<char>, ghost n: nat) returns (text: seq<char>)
    requires n < buf.Length && buf[n] == NUL && forall k | 0 <= k < n :: buf[k] != NUL
    ensures text == buf[..n]
  {
    text := [];
    var len := 0;
    while buf[len] != NUL
      invariant 0 <= len <= n && text == buf[..len]
      decreases n - len
    {
      text := text + [buf[len]];
      len := len + 1;
    }
  }

  /** The characters of a number field, by way of the local buffer. */
  method NumberField(c: char, n: int) returns (text: seq<char>)
    requires TakesNumber(c) && -TWO31 <= n < TWO31
    ensures text == Field(c, Num(n))
  {
    var buf := new char[BUFFER](_ => NUL);
    var sys := if c == 'd' || c == 'u' then 10 else 16;
    var sign, uval := "", Wrap(n);
    if c == 'd' && n < 0 {
      sign, uval := "-", Wrap(-n);
    }
    Itoa(buf, uval, sys);
    NumeralShape(uval, sys);
    forall k | 0 <= k < |Numeral(uval, sys)|
      ensures buf[k] != NUL
    {
      assert buf[k] == Numeral(uval, sys)[k] && Numeral(uval, sys)[k] in Numeral(uval, sys);
    }
    var digits := TextIn(buf, |Numeral(uval, sys)|);
    text := sign + digits;
  }

  /** `done` has come out: in the buffer from `pos0` to `pos`, or as characters passed on. */
  ghost predicate Sent(str: array?<char>, pos0: nat, pos: nat, out: seq<char>, done: seq<char>)
    reads if str == null then {} else {str}
  {
    if str == null then out == done && pos == pos0
    else out == [] && pos == pos0 + |done| && pos <= str.Length && str[pos0..pos] == done
  }

  method Send(str: array?<char>, ghost pos0: nat, pos: nat, out: seq<char>, text: seq<char>, ghost done: seq<char>)
    returns (pos': nat, out': seq<char>)
    requires Sent(str, pos0, pos, out, done) && pos0 <= pos
    requires str != null ==> pos + |text| < str.Length
    modifies if str == null then {} else {str}
    ensures Sent(str, pos0, pos', out', done + text) && pos0 <= pos'
    ensures str != null ==> str[..pos0] == old(str[..pos0])
  {
    if str != null {
      var _ := StrCpy(str, pos, text);
      pos', out' := pos + |text|, out;
      assert str[pos0..pos'] == str[pos0..pos] + str[pos..pos'];
      assert str[pos0..pos] == old(str[..pos])[pos0..pos] == old(str[pos0..pos]);
      assert str[..pos0] == str[..pos][..pos0];
    } else {
      pos', out' := pos, out;
      var t := 0;
      while t < |text|
        invariant 0 <= t <= |text| && out' == out + text[..t]
      {
        out' := out' + [text[t]];
        t := t + 1;
      }
    }
  }

  /** One character, without a terminator. */
  method SendChar(str: array?<char>, ghost pos0: nat, pos: nat, out: seq<char>, c: char, ghost done: seq<char>)
    returns (pos': nat, out': seq<char>)
    requires Sent(str, pos0, pos, out, done) && pos0 <= pos
    requires str != null ==> pos < str.Length
    modifies if str == null then {} else {str}
    ensures Sent(str, pos0, pos', out', done + [c]) && pos0 <= pos'
    ensures str != null ==> str[..pos0] == old(str[..pos0])
  {
    if str != null {
      str[pos] := c;
      pos', out' := pos + 1, out;
      assert str[pos0..pos'] == str[pos0..pos] + [c];
    } else {
      pos', out' := pos, out + [c];
    }
  }

  /** One conversion of a format. */
  method Convert(str: array?<char>, ghost pos0: nat, pos: nat, out: seq<char>, c: char, arg: Arg, ghost done: seq<char>)
    returns (pos': nat, out': seq<char>)
    requires TakesArgument(c) && Suits(c, arg)
    requires Sent(str, pos0, pos, out, done) && pos0 <= pos
    requires str != null ==> pos + |Field(c, arg)| < str.Length
    modifies if str == null then {} else {str}
    ensures Sent(str, pos0, pos', out', done + Field(c, arg)) && pos0 <= pos'
    ensures str != null ==> str[..pos0] == old(str[..pos0])
  {
    if c == 's' {
      pos', out' := Send(str, pos0, pos, out, arg.s, done);
    } else if c == 'c' {
      pos', out' := SendChar(str, pos0, pos, out, (arg.n % 256) as char, done);
    } else {
      var text := NumberField(c, arg.n);
      pos', out' := Send(str, pos0, pos, out, text, done);
    }
  }

  lemma RenderStep(format: seq<char>, args: seq<Arg>)
    requires Matches(format, args) && format != []
    ensures format[0] != '%' ==>
      Matches(format[1..], args) && Render(format, args) == [format[0]] + Render(format[1..], args)
    ensures format[0] == '%' ==> 2 <= |format|
    ensures format[0] == '%' && TakesArgument(format[1]) ==>
      && args != [] && Suits(format[1], args[0]) && Matches(format[2..], args[1..])
      && Render(format, args) == Field(format[1], args[0]) + Render(format[2..], args[1..])
    ensures format[0] == '%' && !TakesArgument(format[1]) ==>
      Matches(format[2..], args) && Render(format, args) == Render(format[2..], args)
  {
  }

  lemma Regroup(x: seq<char>, y: seq<char>, z: seq<char>)
    ensures x + (y + z) == x + y + z
  {
  }

  /** How many arguments a format takes. */
  function Conversions(format: seq<char>): nat {
    if format == [] then 0
    else if format[0] != '%' || |format| == 1 then Conversions(format[1..])
    else (if TakesArgument(format[1]) then 1 else 0) + Conversions(format[2..])
  }

  lemma PlainFirst(c: char, rest: seq<char>, args: seq<Arg>)
    requires c != '%'
    ensures Matches([c] + rest, args) <==> Matches(rest, args)
    ensures Matches(rest, args) ==> Render([c] + rest, args) == [c] + Render(rest, args)
    ensures Conversions([c] + rest) == Conversions(rest)
  {
    assert ([c] + rest)[1..] == rest;
  }

  lemma ConversionFirst(c: char, rest: seq<char>, arg: Arg, args: seq<Arg>)
    requires TakesArgument(c)
    ensures Matches(['%', c] + rest, [arg] + args) <==> Suits(c, arg) && Matches(rest, args)
    ensures Suits(c, arg) && Matches(rest, args) ==>
      Render(['%', c] + rest, [arg] + args) == Field(c, arg) + Render(rest, args)
    ensures Conversions(['%', c] + rest) == 1 + Conversions(rest)
  {
    assert (['%', c] + rest)[2..] == rest && ([arg] + args)[1..] == args;
  }

  lemma UnknownFirst(c: char, rest: seq<char>, args: seq<Arg>)
    requires !TakesArgument(c)
    ensures Matches(['%', c] + rest, args) <==> Matches(rest, args)
    ensures Matches(rest, args) ==> Render(['%', c] + rest, args) == Render(rest, args)
    ensures Conversions(['%', c] + rest) == Conversions(rest)
  {
    assert (['%', c] + rest)[2..] == rest;
  }

  /** The text of `f` with `xs` and then `g` with `ys` is that of both formats in one. */
  ghost predicate Concatenates(f: seq<char>, g: seq<char>, xs: seq<Arg>, ys: seq<Arg>)
    requires Matches(f, xs) && Matches(g, ys)
  {
    Matches(f + g, xs + ys) && Render(f + g, xs + ys) == Render(f, xs) + Render(g, ys)
  }

  lemma ConcatPlain(c: char, f: seq<char>, g: seq<char>, xs: seq<Arg>, ys: seq<Arg>)
    requires c != '%' && Matches(f, xs) && Matches(g, ys) && Concatenates(f, g, xs, ys)
    ensures Matches([c] + f, xs) && Concatenates([c] + f, g, xs, ys)
  {
    assert [c] + f + g == [c] + (f + g);
    PlainFirst(c, f, xs);
    PlainFirst(c, f + g, xs + ys);
  }

  lemma ConcatConversion(c: char, f: seq<char>, g: seq<char>, x: Arg, xs: seq<Arg>, ys: seq<Arg>)
    requires TakesArgument(c) && Suits(c, x) && Matches(f, xs) && Matches(g, ys) && Concatenates(f, g, xs, ys)
    ensures Matches(['%', c] + f, [x] + xs) && Concatenates(['%', c] + f, g, [x] + xs, ys)
  {
    assert ['%', c] + f + g == ['%', c] + (f + g) && [x] + xs + ys == [x] + (xs + ys);
    ConversionFirst(c, f, x, xs);
    ConversionFirst(c, f + g, x, xs + ys);
    Regroup(Field(c, x), Render(f, xs), Render(g, ys));
  }

  lemma ConcatUnknown(c: char, f: seq<char>, g: seq<char>, xs: seq<Arg>, ys: seq<Arg>)
    requires !TakesArgument(c) && Matches(f, xs) && Matches(g, ys) && Concatenates(f, g, xs, ys)
    ensures Matches(['%', c] + f, xs) && Concatenates(['%', c] + f, g, xs, ys)
  {
    assert ['%', c] + f + g == ['%', c] + (f + g);
    UnknownFirst(c, f, xs);
    UnknownFirst(c, f + g, xs + ys);
  }

  /** Two formats one after the other put out the text of the first and then that of the second. */
  lemma {:induction false} RenderConcat(f: seq<char>, g: seq<char>, xs: seq<Arg>, ys: seq<Arg>)
    requires Matches(f, xs) && Conversions(f) == |xs| && Matches(g, ys)
    ensures Matches(f + g, xs + ys) && Render(f + g, xs + ys) == Render(f, xs) + Render(g, ys)
    decreases |f|
  {
    if f == [] {
      assert f + g == g && xs + ys == ys;
    } else if f[0] != '%' {
      RenderConcat(f[1..], g, xs, ys);
      ConcatPlain(f[0], f[1..], g, xs, ys);
      assert [f[0]] + f[1..] == f;
    } else {
      RenderStep(f, xs);
      assert ['%', f[1]] + f[2..] == f;
      if TakesArgument(f[1]) {
        RenderConcat(f[2..], g, xs[1..], ys);
        ConcatConversion(f[1], f[2..], g, xs[0], xs[1..], ys);
        assert [xs[0]] + xs[1..] == xs;
      } else {
        RenderConcat(f[2..], g, xs, ys);
        ConcatUnknown(f[1], f[2..], g, xs, ys);
      }
    }
  }

  /** A format without conversions is its own text. */
  lemma {:induction false} PlainText(format: seq<char>)
    requires '%' !in format
    ensures Matches(format, []) && Conversions(format) == 0 && Render(format, []) == format
    decreases |format|
  {
    if format != [] {
      assert format[0] in format;
      PlainText(format[1..]);
      assert [format[0]] + format[1..] == format;
    }
  }

  /** The text of each conversion that takes a number. */
  lemma NumberTexts(n: int)
    requires -TWO31 <= n < TWO31
    ensures var bits := if n < 0 then n + 0x1_0000_0000 else n;
      && Suits('d', Num(n)) && Suits('u', Num(n)) && Suits('x', Num(n)) && Suits('p', Num(n)) && Suits('0', Num(n))
      && Field('d', Num(n)) == (if n < 0 then "-" + Numeral(-n, 10) else Numeral(n, 10))
      && Field('u', Num(n)) == Numeral(bits, 10)
      && Field('x', Num(n)) == Field('p', Num(n)) == Field('0', Num(n)) == Numeral(bits, 16)
  {
    SignedField(n);
    UnsignedField('u', n);
    UnsignedField('x', n);
    UnsignedField('p', n);
    UnsignedField('0', n);
  }

  /** A conversion alone: the text of its argument, and of an unknown one nothing. */
  lemma ConversionText(c: char, arg: Arg)
    ensures c in {'d', 'u', 'x', 'p', '0', 'c', 's'} && Suits(c, arg) ==>
      Matches(['%', c], [arg]) && Conversions(['%', c]) == 1 && Render(['%', c], [arg]) == Field(c, arg)
    ensures c !in {'d', 'u', 'x', 'p', '0', 'c', 's'} ==>
      Matches(['%', c], []) && Conversions(['%', c]) == 0 && Render(['%', c], []) == []
  {
    assert ['%', c] + [] == ['%', c] && [arg] + [] == [arg];
    if TakesArgument(c) {
      ConversionFirst(c, [], arg, []);
      if Suits(c, arg) {
        assert Field(c, arg) + [] == Field(c, arg);
      }
    } else {
      UnknownFirst(c, [], []);
    }
  }

  /** A string goes out as it is, and of a character argument the low byte. */
  lemma TextTexts(s: seq<char>, n: int)
    requires NUL !in s && -TWO31 <= n < TWO31
    ensures Suits('s', Str(s)) && Render("%s", [Str(s)]) == s
    ensures Suits('c', Num(n)) && Render("%c", [Num(n)]) == [(n % 256) as char]
  {
    ConversionText('s', Str(s));
    ConversionText('c', Num(n));
  }

  /** One character of a format, or one conversion with its argument. */
  method Item(str: array?<char>, ghost pos0: nat, pos: nat, out: seq<char>, format: seq<char>, f: nat,
              args: seq<Arg>, a: nat, ghost done: seq<char>)
    returns (pos': nat, out': seq<char>, f': nat, a': nat, ghost piece: seq<char>)
    requires f < |format| && a <= |args| && Matches(format[f..], args[a..])
    requires Sent(str, pos0, pos, out, done) && pos0 <= pos
    requires str != null ==> pos + |Render(format[f..], args[a..])| < str.Length
    modifies if str == null then {} else {str}
    ensures f < f' <= |format| && a' <= |args| && Matches(format[f'..], args[a'..])
    ensures Render(format[f..], args[a..]) == piece + Render(format[f'..], args[a'..])
    ensures Sent(str, pos0, pos', out', done + piece) && pos0 <= pos'
    ensures str != null ==> str[..pos0] == old(str[..pos0])
  {
    RenderStep(format[f..], args[a..]);
    pos', out', f', a', piece := pos, out, f + 1, a, [];
    var c := format[f];
    if c == '%' {
      c := format[f + 1];
      f' := f + 2;
      assert format[f'..] == format[f..][2..];
      if TakesArgument(c) {
        assert args[a + 1..] == args[a..][1..];
        piece := Field(c, args[a]);
        pos', out' := Convert(str, pos0, pos, out, c, args[a], done);
        a' := a + 1;
      } else {
        assert done + piece == done;
      }
    } else {
      assert format[f'..] == format[f..][1..];
      piece := [c];
      pos', out' := SendChar(str, pos0, pos, out, c, done);
    }
  }

  /** vsprintf_helper: into `str` from `pos` on, or, without a buffer, character by character.
      Either way the same characters come out. */
  method VsprintfHelper(str: array?<char>, format: seq<char>, args: seq<Arg>, pos: nat)
    returns (pos': nat, out: seq<char>)
    requires NUL !in format && Matches(format, args)
    requires str != null ==> pos + |Render(format, args)| < str.Length
    modifies if str == null then {} else {str}
    ensures str == null ==> out == Render(format, args) && pos' == pos
    ensures str != null ==> out == [] && pos' == pos + |Render(format, args)| && pos' <= str.Length
    ensures str != null ==> str[pos..pos'] == Render(format, args) && str[..pos] == old(str[..pos])
  {
    ghost var all, done := Render(format, args), [];
    var f, a := 0, 0;
    pos', out := pos, [];
    assert format[0..] == format && args[0..] == args;
    while f < |format|
      invariant 0 <= f <= |format| && 0 <= a <= |args| && pos <= pos'
      invariant Matches(format[f..], args[a..])
      invariant all == done + Render(format[f..], args[a..])
      invariant Sent(str, pos, pos', out, done)
      invariant str != null ==> str[..pos] == old(str[..pos])
    {
      ghost var piece;
      pos', out, f, a, piece := Item(str, pos, pos', out, format, f, args, a, done);
      Regroup(done, piece, Render(format[f..], args[a..]));
      done := done + piece;
    }
    assert all == done;
  }
}
