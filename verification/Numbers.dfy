/** Numbers and their decimal and hexadecimal text (kernel/lib/libc.c, kernel/colorforth/editor.c). */
module Numbers {
  import opened Arithmetic
  import opened Bits
  import opened Options
  import opened Sequences

  function Digit(d: nat): char
    requires d < 36
  {
    if d > 9 then (d - 10) as char + 'a' else d as char + '0'
  }

  /** The digits of a number, most significant first. */
  function Digits(n: nat, base: nat): (s: string)
    requires 2 <= base <= 36
    ensures s != ""
  {
    if n < base then [Digit(n)] else
      SmallerQuotient(n, base);
      Digits(n / base, base) + [Digit(n % base)]
  }

  function Written(i: int, base: nat): (s: string)
    requires 2 <= base <= 36
  {
    if i < 0 then "-" + Digits(-i, base) else Digits(i, base)
  }

  predicate IsDigit(c: char, base: nat)
    requires 2 <= base <= 36
  {
    exists d: nat :: d < base && c == Digit(d)
  }

  /** What a digit stands for. */
  function Amount(c: char): int
  {
    if 'a' <= c then c as int - 'a' as int + 10 else c as int - '0' as int
  }

  function Value(s: string, base: nat): int
  {
    if s == "" then 0 else Value(s[..|s| - 1], base) * base + Amount(s[|s| - 1])
  }

  /** The digits of a number stand for it, without leading zeros. */
  lemma {:induction false} ValueOfDigits(n: nat, base: nat)
    requires 2 <= base <= 36
    ensures Value(Digits(n, base), base) == n
    ensures Digits(n, base)[0] == '0' <==> n == 0
    ensures forall i :: 0 <= i < |Digits(n, base)| ==> IsDigit(Digits(n, base)[i], base)
    ensures n == 0 ==> Digits(n, base) == "0"
    decreases n
  {
    assert n < base ==> Digits(n, base)[..0] == "";
    if n >= base {
      SmallerQuotient(n, base);
      ValueOfDigits(n / base, base);
      assert Digits(n, base)[..|Digits(n, base)| - 1] == Digits(n / base, base);
    }
  }

  lemma SmallerQuotient(n: nat, base: nat)
    requires 2 <= base
    ensures n > 0 ==> n / base < n
    ensures n / base == 0 <==> n < base
    ensures n == n / base * base + n % base
  {
  }

  lemma DigitsStep(q: nat, d: nat, base: nat)
    requires 2 <= base <= 36 && d < base
    ensures q * base + d >= 0
    ensures Digits(q * base + d, base) == if q == 0 then [Digit(d)] else Digits(q, base) + [Digit(d)]
  {
    DivMod(q, base, d);
    SmallerQuotient(q * base + d, base);
  }

  /** And they are the only such text: a text of digits without a leading zero is what its value is written as. */
  lemma {:induction false} DigitsOfValue(s: string, base: nat)
    requires 2 <= base <= 36 && s != "" && (s[0] != '0' || |s| == 1)
    requires forall i :: 0 <= i < |s| ==> IsDigit(s[i], base)
    ensures Value(s, base) >= 0 && Digits(Value(s, base), base) == s
    decreases |s|
  {
    hide Digits, Digit;
    var n := |s| - 1;
    assert s == s[..n] + [s[n]] && IsDigit(s[n], base);
    AmountOfDigit(s[n], base);
    if n > 0 {
      DigitsOfValue(s[..n], base);
      ValueOfDigits(Value(s[..n], base), base);
      DigitsStep(Value(s[..n], base), Amount(s[n]), base);
    } else {
      assert s[..n] == "";
      DigitsStep(0, Amount(s[n]), base);
    }
  }

  lemma AmountOfDigit(c: char, base: nat)
    requires 2 <= base <= 36 && IsDigit(c, base)
    ensures 0 <= Amount(c) < base && Digit(Amount(c)) == c
  {
  }

  /** A text that reads as a number: a minus sign in front of a negative one, then digits without leading zeros. */
  ghost predicate ReadsAs(text: string, n: int, base: nat)
    requires 2 <= base <= 36
  {
    var digits := if n < 0 && text != "" then text[1..] else text;
    && text != "" && (text[0] == '-' <==> n < 0)
    && digits != "" && (digits[0] == '0' <==> n == 0)
    && (forall i :: 0 <= i < |digits| ==> IsDigit(digits[i], base))
    && Value(digits, base) == if n < 0 then -n else n
  }

  lemma WrittenReads(n: int, base: nat)
    requires 2 <= base <= 36
    ensures ReadsAs(Written(n, base), n, base)
  {
    hide Digits, Value;
    var digits := Digits(if n < 0 then -n else n, base);
    ValueOfDigits(if n < 0 then -n else n, base);
    assert n < 0 ==> Written(n, base)[1..] == digits;
    assert IsDigit(digits[0], base);
  }

  // ---------------------------------------------------------------- printing

  /** One more digit, from the place `j` of a number whose digits above that place have been shown. */
  lemma NextDigit(base: nat, shown: nat, j: nat, rest: nat, k: nat)
    requires 2 <= base <= 36 && j > 0 && rest < base * j && k == rest / j
    ensures k < base && rest % j == rest - j * k
    ensures (base * shown + k) * j + rest % j == shown * (base * j) + rest
    ensures Digits(base * shown + k, base) == if shown == 0 then [Digit(k)] else Digits(shown, base) + [Digit(k)]
  {
    hide Digits;
    assert rest == k * j + rest % j;
    assert k < base;
    DigitsStep(shown, k, base);
    Distribute(base, shown, j, k);
  }

  lemma Distribute(base: nat, shown: nat, j: nat, k: nat)
    ensures (base * shown + k) * j == shown * (base * j) + k * j
  {
  }

  predicate PowerOfTen(j: nat)
  {
    j in {1000000000, 100000000, 10000000, 1000000, 100000, 10000, 1000, 100, 10, 1}
  }

  lemma FirstPower()
    ensures PowerOfTen(1000000000)
  {
  }

  lemma NextPower(j: nat)
    requires PowerOfTen(j)
    ensures if j == 1 then j / 10 == 0 else PowerOfTen(j / 10) && 10 * (j / 10) == j
  {
  }

  /** `print_dec`: powers of ten from the largest down. The most negative integer has no negation. */
  method PrintDec(i: int) returns (out: string)
    requires IsInt32(i) && IsInt32(-i)
    ensures out == Written(i, 10) && ReadsAs(out, i, 10)
  {
    hide Digits, Digit, PowerOfTen, ReadsAs;
    WrittenReads(i, 10);
    Zero(10);
    if i == 0 {
      return "0";
    }
    out := "";
    var rest := i;
    if rest < 0 {
      out := out + "-";
      rest := -rest;
    }
    ghost var sign, n, shown := out, rest, 0;
    var f := false;
    var j := 1000000000;
    FirstPower();
    while j != 0
      invariant j >= 0 && (PowerOfTen(j) || j == 0) && shown >= 0 && rest >= 0
      invariant f == (shown > 0) && out == sign + if f then Digits(shown, 10) else ""
      invariant if j == 0 then shown == n else shown * (10 * j) + rest == n && rest < 10 * j
      decreases j
    {
      NextDigit(10, shown, j, rest, rest / j);
      NextPower(j);
      var k := rest / j;
      if k == 0 {
        if f {
          out := out + "0";
        }
      } else {
        rest := rest - j * k;
        f := true;
        out := out + [Digit(k)];
      }
      shown := 10 * shown + k;
      j := j / 10;
    }
  }

  lemma Zero(base: nat)
    requires 2 <= base <= 36
    ensures Digit(0) == '0' && Digits(0, base) == "0"
  {
  }

  function SixteenTo(n: nat): (p: nat)
    ensures p > 0
  {
    if n == 0 then 1 else 16 * SixteenTo(n - 1)
  }

  /** The top nibble of a word that holds `rest` shifted up, and what the next shift leaves. */
  lemma NextNibble(rest: nat, j: nat, scale: nat)
    requires j > 0 && j * scale == 0x1000_0000 && rest < 16 * j
    ensures rest * scale / 0x1000_0000 == rest / j
    ensures rest * scale * 16 % WORD == rest % j * (scale * 16)
  {
    var k, r := rest / j, rest % j;
    assert rest == k * j + r;
    Scaled(k, j, r, scale);
    DivMod(k, 0x1000_0000, r * scale);
    DivMod(k, WORD, r * scale * 16);
  }

  lemma Scaled(k: nat, j: nat, r: nat, scale: nat)
    requires j * scale == 0x1000_0000 && r < j
    ensures (k * j + r) * scale == k * 0x1000_0000 + r * scale
    ensures r * scale < 0x1000_0000
    ensures r * scale * 16 == r * (scale * 16)
  {
    assert k * j * scale == k * (j * scale);
    assert (j - r) * scale > 0;
  }

  /** `print_hex`: nibbles from the top down. */
  method PrintHex(i: Word32) returns (out: string)
    ensures out == Digits(i, 16) && ReadsAs(out, i, 16)
  {
    hide Digits, Digit, SixteenTo, ReadsAs;
    WrittenReads(i, 16);
    Zero(16);
    if i == 0 {
      return "0";
    }
    out := "";
    var register: Word32 := i;
    var n := 8;
    var f := false;
    ghost var shown, rest, scale := 0, i, 1;
    SixteenPowers();
    while n > 0
      invariant 0 <= n && shown >= 0 && rest >= 0 && scale > 0 && SixteenTo(n) * scale == WORD
      invariant f == (shown > 0) && out == if f then Digits(shown, 16) else ""
      invariant shown * SixteenTo(n) + rest == i && rest < SixteenTo(n)
      invariant register == rest * scale
    {
      n := n - 1;
      ghost var j := SixteenTo(n);
      SixteenNext(n, scale);
      NextDigit(16, shown, j, rest, rest / j);
      NextNibble(rest, j, scale);
      shown, rest, scale := 16 * shown + rest / j, rest % j, scale * 16;
      var k := register / 0x1000_0000;
      if k == 0 {
        if f {
          out := out + "0";
        }
      } else {
        f := true;
        out := out + [Digit(k)];
      }
      register := register * 16 % 0x1_0000_0000;
    }
    SixteenPowers();
  }

  lemma SixteenPowers()
    ensures SixteenTo(0) == 1 && SixteenTo(8) == WORD
  {
    assert SixteenTo(4) == 0x1_0000;
  }

  lemma SixteenNext(n: nat, scale: nat)
    requires SixteenTo(n + 1) * scale == WORD
    ensures SixteenTo(n + 1) == 16 * SixteenTo(n)
    ensures SixteenTo(n) * scale == 0x1000_0000
    ensures SixteenTo(n) * (scale * 16) == WORD
  {
    assert 16 * SixteenTo(n) * scale == 16 * (SixteenTo(n) * scale);
  }

  /** How a 32-bit number is shown: in decimal with a sign, in hexadecimal as an unsigned word. */
  function NumberText(n: int, isHex: bool): (s: string)
  {
    if isHex then Digits(Unsigned(n), 16) else Written(n, 10)
  }

  /** In decimal the text reads as the number, in hexadecimal as the word that holds it. */
  lemma NumberTextReads(n: int)
    ensures ReadsAs(NumberText(n, false), n, 10) && ReadsAs(NumberText(n, true), Unsigned(n), 16)
  {
    hide Digits, ReadsAs;
    WrittenReads(n, 10);
    WrittenReads(Unsigned(n), 16);
  }

  lemma NumberTextExamples()
    ensures NumberText(-5, false) == "-5" && NumberText(0, false) == "0" && NumberText(120, false) == "120"
    ensures NumberText(255, true) == "ff" && NumberText(-1, true) == "ffffffff"
  {
    assert Digits(5, 10) == "5" && Digits(120, 10) == "120" && Digits(255, 16) == "ff";
    assert Digits(0xffff, 16) == "ffff";
  }

  /** The number can be read off its text, given the base. */
  lemma NumberTextInjective(m: int, n: int, isHex: bool)
    requires IsInt32(m) && IsInt32(n) && NumberText(m, isHex) == NumberText(n, isHex)
    ensures m == n
  {
    hide Digits;
    if isHex {
      ValueOfDigits(Unsigned(m), 16);
      ValueOfDigits(Unsigned(n), 16);
    } else {
      var a, b := if m < 0 then -m else m, if n < 0 then -n else n;
      ValueOfDigits(a, 10);
      ValueOfDigits(b, 10);
      assert !IsDigit('-', 10);
      assert IsDigit(Digits(a, 10)[0], 10) && IsDigit(Digits(b, 10)[0], 10);
      assert ("-" + Digits(a, 10))[1..] == Digits(a, 10) && ("-" + Digits(b, 10))[1..] == Digits(b, 10);
    }
  }

  /** `print_number`: the number in the upper 27 bits of a cell, in either base. */
  method PrintNumber(word: Word32, isHex: bool) returns (out: string)
    ensures out == NumberText(Signed(word) / 32, isHex) + " "
  {
    if isHex {
      out := PrintHex(Unsigned(Signed(word) / 32));
    } else {
      out := PrintDec(Signed(word) / 32);
    }
    out := out + " ";
  }

  /** `reverse`. */
  method Reverse(str: array<char>, length: nat)
    requires length <= str.Length
    modifies str
    ensures str[..length] == Reversed(old(str[..length]))
    ensures str[length..] == old(str[length..])
  {
    var i, j := length - 1, 0;
    while j < i
      invariant 0 <= j && i == length - 1 - j && j <= i + 1
      invariant forall k :: 0 <= k < j || i < k < length ==> str[k] == old(str[length - 1 - k])
      invariant forall k :: j <= k <= i || length <= k < str.Length ==> str[k] == old(str[k])
    {
      var tmp := str[j];
      str[j] := str[i];
      str[i] := tmp;
      i, j := i - 1, j + 1;
    }
    ghost var was := old(str[..length]);
    assert length == 0 ==> was == [];
    forall k | 0 <= k < length
      ensures str[..length][k] == Reversed(was)[k]
    {
      ReversedAt(was, k);
    }
    assert forall k :: length <= k < str.Length ==> str[k] == old(str[k]);
  }

  /** The characters before the terminator. */
  ghost predicate Holds(str: array<char>, text: string)
    reads str
  {
    |text| < str.Length && str[..|text|] == text && str[|text|] == '\0'
  }

  /** `itoa`: digits from the least significant on, the sign behind them, then all reversed in place. */
  method Itoa(value: int, str: array<char>, base: nat)
    requires 2 <= base <= 36 && IsInt32(value) && (value < 0 ==> base == 10 && IsInt32(-value))
    requires |Written(value, base)| < str.Length
    modifies str
    ensures Holds(str, Written(value, base))
    ensures exists text :: Holds(str, text) && ReadsAs(text, value, base)
  {
    WrittenReads(value, base);
    hide Digits, Digit, ReadsAs;
    var i := 0;
    if value == 0 {
      Zero(base);
      str[i] := '0';
      i := i + 1;
      str[i] := '\0';
      return;
    }
    var rest := if value < 0 then -value else value;
    i := PutDigits(rest, str, base);
    ghost var digits := Digits(if value < 0 then -value else value, base);
    if value < 0 {
      ReversedSnoc(str[..i], '-');
      str[i] := '-';
      assert str[..i + 1] == str[..i] + ['-'];
      i := i + 1;
    }
    str[i] := '\0';
    Reverse(str, i);
    assert str[i] == str[i..][0];
  }

  /** The loop of `itoa`. */
  method PutDigits(value: nat, str: array<char>, base: nat) returns (i: nat)
    requires 2 <= base <= 36 && value > 0 && |Digits(value, base)| <= str.Length
    modifies str
    ensures i == |Digits(value, base)| && Reversed(str[..i]) == Digits(value, base)
  {
    hide *;
    var rest := value;
    i := 0;
    assert Reversed(str[..0]) == "";
    while rest != 0
      invariant rest >= 0 && i <= str.Length
      invariant Digits(value, base) == (if rest == 0 then "" else Digits(rest, base)) + Reversed(str[..i])
      decreases rest
    {
      SmallerQuotient(rest, base);
      NextRemainder(rest, str[..i], base);
      var remainder := rest % base;
      RemainderDigit(remainder);
      str[i] := if remainder > 9 then (remainder - 10) as char + 'a' else remainder as char + '0';
      rest := rest / base;
      assert str[..i + 1] == str[..i] + [str[i]];
      i := i + 1;
    }
  }

  lemma RemainderDigit(d: nat)
    requires d < 36
    ensures Digit(d) == if d > 9 then (d - 10) as char + 'a' else d as char + '0'
  {
  }

  lemma NextRemainder(rest: nat, s: string, base: nat)
    requires 2 <= base <= 36 && rest > 0
    ensures Digits(rest, base) + Reversed(s)
         == (if rest / base == 0 then "" else Digits(rest / base, base)) + Reversed(s + [Digit(rest % base)])
  {
    hide *;
    SmallerQuotient(rest, base);
    var q, d := rest / base, rest % base;
    DigitsStep(q, d, base);
    ReversedSnoc(s, Digit(d));
    assert Digits(rest, base) == (if q == 0 then "" else Digits(q, base)) + [Digit(d)];
  }

  // ---------------------------------------------------------------- reading

  predicate IsDecimal(c: char)
  {
    '0' <= c <= '9'
  }

  /** `is_number`: true of the empty text. */
  method IsNumber(text: string) returns (r: bool)
    ensures r <==> forall i :: 0 <= i < |text| ==> IsDecimal(text[i])
  {
    var ptr := 0;
    while ptr < |text|
      invariant ptr <= |text| && forall i :: 0 <= i < ptr ==> IsDecimal(text[i])
    {
      var c := text[ptr];
      ptr := ptr + 1;
      if c !in {'0', '1', '2', '3', '4', '5', '6', '7', '8', '9'} {
        return false;
      }
    }
    return true;
  }

  /** The value of a text in decimal places, each character taken as a digit. */
  function Number(text: string): int
  {
    if text == "" then 0 else Number(text[..|text| - 1]) * 10 + text[|text| - 1] as int - '0' as int
  }

  /** Every product, sum and difference of `atoi` is an `int`; C leaves an overflow undefined. */
  predicate Within(text: string)
  {
    text == "" ||
    (var k, c := Number(text[..|text| - 1]), text[|text| - 1] as int;
     Within(text[..|text| - 1]) && IsInt32(k * 10) && IsInt32(k * 10 + c) && IsInt32(k * 10 + c - '0' as int))
  }

  /** `None` stands for the overflow. */
  method Atoi(text: string) returns (k: Option<int>)
    ensures k == if Within(text) then Some(Number(text)) else None
  {
    var sum := 0;
    var ptr := 0;
    assert text[..|text|] == text;
    while ptr < |text|
      invariant ptr <= |text| && sum == Number(text[..ptr]) && Within(text[..ptr])
    {
      assert text[..ptr + 1][..ptr] == text[..ptr];
      var c := text[ptr] as int;
      if !IsInt32(sum * 10) || !IsInt32(sum * 10 + c) || !IsInt32(sum * 10 + c - '0' as int) {
        NotWithin(text, ptr + 1);
        return None;
      }
      sum := sum * 10 + c - '0' as int;
      ptr := ptr + 1;
    }
    return Some(sum);
  }

  lemma {:induction false} NotWithin(text: string, n: nat)
    requires n <= |text| && !Within(text[..n])
    ensures !Within(text)
    decreases |text| - n
  {
    if n < |text| {
      assert text[..n + 1][..n] == text[..n];
      NotWithin(text, n + 1);
    } else {
      assert text[..n] == text;
    }
  }

  /** On digits the sum of the last turn is the largest: `atoi` reads every number but the 48 largest of type `int`. */
  lemma {:induction false} DigitsWithin(text: string)
    requires forall i :: 0 <= i < |text| ==> IsDecimal(text[i])
    ensures Number(text) >= 0
    ensures Within(text) <==> text == "" || IsInt32(Number(text) + 48)
    decreases |text|
  {
    if text != "" {
      DigitsWithin(text[..|text| - 1]);
    }
  }

  /** `atoi` undoes the decimal writing of any non-negative number. */
  lemma {:induction false} NumberOfDigits(n: nat)
    ensures Number(Digits(n, 10)) == n
    ensures forall i :: 0 <= i < |Digits(n, 10)| ==> IsDecimal(Digits(n, 10)[i])
    decreases n
  {
    if n < 10 {
      assert Digits(n, 10)[..0] == "";
    } else {
      NumberOfDigits(n / 10);
      assert Digits(n, 10)[..|Digits(n, 10)| - 1] == Digits(n / 10, 10);
    }
  }
}
