/**
 The number printers of the kernel log, and what a numeral means.
 */
module Numerals {
  function DigitChar(d: nat): char
    requires d < 16
  {
    if d < 10 then ('0' as int + d) as char else ('A' as int + d - 10) as char
  }

  predicate IsDigit(c: char, base: nat)
  {
    exists d: nat :: d < base && d < 16 && c == DigitChar(d)
  }

  function DigitValue(c: char): (d: nat) {
    if '0' <= c <= '9' then c as int - '0' as int
    else if 'A' <= c <= 'F' then c as int - 'A' as int + 10
    else 0
  }

  /** Reads a string of digits. */
  function Value(s: string, base: nat): nat {
    if s == [] then 0 else Value(s[..|s| - 1], base) * base + DigitValue(s[|s| - 1])
  }

  /** The digits of a number without leading zeros; none for 0. */
  function Digits(v: nat, base: nat): string
    requires 2 <= base <= 16
  {
    if v == 0 then "" else Digits(v / base, base) + [DigitChar(v % base)]
  }

  function Numeral(v: nat, base: nat): string
    requires 2 <= base <= 16
  {
    if v == 0 then "0" else Digits(v, base)
  }

  ghost predicate AllDigits(s: string, base: nat) {
    forall c <- s :: IsDigit(c, base)
  }

  lemma DigitBack(d: nat)
    requires d < 16
    ensures DigitValue(DigitChar(d)) == d
  {
  }

  lemma DivMod(v: nat, base: nat)
    requires base >= 2
    ensures v == v / base * base + v % base && v % base < base
    ensures v > 0 ==> v / base < v
    ensures v < base ==> v / base == 0 && v % base == v
  {
  }

  /** One round of taking off the last digit. */
  lemma LastDigit(v: nat, base: nat)
    requires 2 <= base <= 10 && v > 0
    ensures v / base < v && v % base < 10
    ensures Digits(v, base) == Digits(v / base, base) + [('0' as int + v % base) as char]
  {
    DivMod(v, base);
  }

  /** Reading the digits of a number gives the number back. */
  lemma {:induction false} DigitsRead(v: nat, base: nat)
    requires 2 <= base <= 16
    ensures Value(Digits(v, base), base) == v && AllDigits(Digits(v, base), base)
    ensures v > 0 ==> Digits(v, base) != "" && Digits(v, base)[0] != '0'
  {
    if v > 0 {
      DivMod(v, base);
      var q, d := v / base, v % base;
      DigitsRead(q, base);
      DigitBack(d);
    }
  }

  lemma NumeralRead(v: nat, base: nat)
    requires 2 <= base <= 16
    ensures Value(Numeral(v, base), base) == v && AllDigits(Numeral(v, base), base)
    ensures Numeral(v, base) != "" && (Numeral(v, base)[0] == '0' ==> Numeral(v, base) == "0")
  {
    DigitsRead(v, base);
    if v == 0 {
      assert Numeral(v, base) == "0" && '0' == DigitChar(0);
      assert Value("0"[..0], base) == 0;
    }
  }

  lemma DigitBounds(c: char, base: nat)
    requires IsDigit(c, base)
    ensures DigitValue(c) < base && DigitChar(DigitValue(c)) == c
  {
    var d: nat :| d < base && d < 16 && c == DigitChar(d);
    DigitBack(d);
  }

  /** Any other digit string with the same value is the numeral with zeros in front. */
  lemma {:induction false} OnlyLeadingZeros(s: string, base: nat)
    requires 2 <= base <= 16 && AllDigits(s, base)
    ensures |Digits(Value(s, base), base)| <= |s|
    ensures s[|s| - |Digits(Value(s, base), base)|..] == Digits(Value(s, base), base)
    ensures forall i :: 0 <= i < |s| - |Digits(Value(s, base), base)| ==> s[i] == '0'
  {
    if s != "" {
      var init, c := s[..|s| - 1], s[|s| - 1];
      OnlyLeadingZeros(init, base);
      DigitBounds(c, base);
      var v, w := Value(s, base), Value(init, base);
      DivStep(w, base, DigitValue(c));
      if v > 0 {
        var k := |init| - |Digits(w, base)|;
        assert Digits(v, base) == Digits(w, base) + [c];
        assert s[k..] == init[k..] + [c];
      }
    }
  }

  lemma AtLeast(k: int, base: nat)
    ensures k >= 1 ==> k * base >= base
    ensures k <= -1 ==> k * base <= 0 - base
  {
  }

  lemma DivStep(w: nat, base: nat, d: nat)
    requires d < base
    ensures (w * base + d) / base == w && (w * base + d) % base == d
  {
    var q, r := (w * base + d) / base, (w * base + d) % base;
    assert w * base + d == q * base + r;
    assert (w - q) * base == r - d;
    AtLeast(w - q, base);
  }

  /** No shorter string of digits has the same value. */
  lemma NumeralIsShortest(s: string, base: nat)
    requires 2 <= base <= 16 && AllDigits(s, base) && s != ""
    ensures |Numeral(Value(s, base), base)| <= |s|
    ensures |s| == |Numeral(Value(s, base), base)| ==> s == Numeral(Value(s, base), base)
  {
    OnlyLeadingZeros(s, base);
  }

  /** `text` is the number `v` in digits of the base, without a needless zero in front. */
  ghost predicate Writes(text: string, v: nat, base: nat) {
    text != "" && AllDigits(text, base) && Value(text, base) == v && (text[0] == '0' ==> text == "0")
  }

  /** Nothing else than its numeral writes a number. */
  lemma WritesIff(text: string, v: nat, base: nat)
    requires 2 <= base <= 16
    ensures Writes(text, v, base) <==> text == Numeral(v, base)
  {
    NumeralRead(v, base);
    if Writes(text, v, base) {
      OnlyLeadingZeros(text, base);
      var k := |text| - |Digits(v, base)|;
      if k > 0 {
        assert text[0] == '0' && text == "0";
        assert Value("0"[..0], base) == 0;
      } else {
        assert text[k..] == text;
      }
    }
  }

  /** A minus sign and the magnitude below zero, the number itself otherwise. */
  ghost predicate WritesSigned(text: string, value: int, base: nat) {
    if value < 0 then text != "" && text[0] == '-' && Writes(text[1..], -value, base) else Writes(text, value, base)
  }

  lemma WritesSignedIff(text: string, value: int, base: nat)
    requires 2 <= base <= 16
    ensures WritesSigned(text, value, base) <==> text == SignedNumeral(value, base)
  {
    if value < 0 {
      if text != "" {
        WritesIff(text[1..], -value, base);
      }
      if text != "" && text[0] == '-' {
        assert text == "-" + text[1..];
      }
    } else {
      WritesIff(text, value, base);
    }
  }

  /** The sixteen digits. */
  lemma DigitCharIs(d: nat)
    requires d < 16
    ensures DigitChar(d) == "0123456789ABCDEF"[d] && DigitValue("0123456789ABCDEF"[d]) == d
  {
  }

  /** The size of the buffer a number needs. */
  method CountDigits(value: nat, base: nat) returns (size: nat)
    requires 2 <= base <= 10
    ensures size == |Digits(value, base)|
  {
    size := 0;
    var tmp: nat := value;
    while tmp != 0
      invariant size + |Digits(tmp, base)| == |Digits(value, base)|
      decreases tmp
    {
      DivMod(tmp, base);
      size := size + 1;
      tmp := tmp / base;
    }
  }

  /** Fills the buffer with the digits from the last to the first; the terminator stays. */
  method FillDigits(buf: array<char>, number: nat, base: nat)
    requires 2 <= base <= 10 && buf.Length == |Digits(number, base)| + 1
    modifies buf
    ensures buf[..] == Digits(number, base) + [old(buf[..])[buf.Length - 1]]
  {
    var size, value: nat := buf.Length - 1, number;
    while value != 0
      invariant 0 <= size < buf.Length && size == |Digits(value, base)|
      invariant Digits(number, base) + [old(buf[..])[buf.Length - 1]] == Digits(value, base) + buf[size..]
      decreases value
    {
      LastDigit(value, base);
      size := size - 1;
      buf[size] := ('0' as int + value % base) as char;
      value := value / base;
    }
  }

  /** print_int_u32 and print_int_u64: the digits are counted, then filled in from the last to the first. */
  method PrintUnsigned(value: nat, base: nat) returns (out: string)
    requires 2 <= base <= 10
    ensures out == Numeral(value, base)
  {
    if value == 0 {
      return [('0' as int + value % base) as char];
    }
    var size := CountDigits(value, base);
    var buf := new char[size + 1];
    buf[size] := '\0';
    FillDigits(buf, value, base);
    return buf[..size];
  }

  /** Magnitudes below this have a negation in a signed word of `bits` bits. */
  function Limit(bits: nat): nat {
    if bits == 32 then 0x8000_0000 else 0x8000_0000_0000_0000
  }

  /** print_int_32 and print_int_64, for every value but the least, whose negation overflows. */
  method PrintSigned(value: int, base: nat, bits: nat) returns (out: string)
    requires 2 <= base <= 10 && (bits == 32 || bits == 64) && -(Limit(bits) as int) < value < Limit(bits)
    ensures out == SignedNumeral(value, base)
  {
    out := if value < 0 then "-" else "";
    var digits := PrintUnsigned(if value < 0 then -value else value, base);
    out := out + digits;
  }

  function SignedNumeral(value: int, base: nat): string
    requires 2 <= base <= 16
  {
    if value < 0 then "-" + Numeral(-value, base) else Numeral(value, base)
  }

  function SignedValue(s: string, base: nat): int {
    if s != "" && s[0] == '-' then 0 - Value(s[1..], base) else Value(s, base)
  }

  lemma SignedRead(value: int, base: nat)
    requires 2 <= base <= 16
    ensures SignedValue(SignedNumeral(value, base), base) == value
  {
    NumeralRead(if value < 0 then -value else value, base);
    if value >= 0 {
      var s := Numeral(value, base);
      assert s[0] in s && IsDigit(s[0], base);
    }
  }

  function Pow16(n: nat): (p: nat)
    ensures p >= 1
  {
    if n == 0 then 1 else 16 * Pow16(n - 1)
  }

  /** `value` shifted right by `n` nibbles. */
  function Shifted(value: nat, n: nat): nat {
    if n == 0 then value else Shifted(value, n - 1) / 16
  }

  lemma {:induction false} ShiftedOut(value: nat, n: nat, k: nat)
    requires value < Pow16(n) && k <= n
    ensures Shifted(value, k) < Pow16(n - k)
  {
    if k > 0 {
      ShiftedOut(value, n, k - 1);
    }
  }

  /** print_hex_32 (8 nibbles) and print_hex_64 (16 nibbles): from the highest nibble down, without leading zeros. */
  method PrintHex(value: nat, nibbles: nat) returns (out: string)
    requires value < Pow16(nibbles)
    ensures out == "0x" + Numeral(value, 16)
  {
    var index := ['0', '1', '2', '3', '4', '5', '6', '7', '8', '9', 'A', 'B', 'C', 'D', 'E', 'F'];
    assert forall d: nat :: d < 16 ==> index[d] == DigitChar(d);
    out := "0x";
    var firstNonZero := false;
    ShiftedOut(value, nibbles, nibbles);
    for i := 0 to nibbles
      invariant firstNonZero <==> Shifted(value, nibbles - i) > 0
      invariant out == "0x" + Digits(Shifted(value, nibbles - i), 16)
    {
      var c := index[Shifted(value, nibbles - i - 1) % 16];
      if c != '0' {
        firstNonZero := true;
      }
      if firstNonZero {
        out := out + [c];
      }
    }
    if !firstNonZero {
      out := out + "0";
    }
  }
}
