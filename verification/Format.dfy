/** The printf conversions the decoder uses, and the readers that invert them. */
module Format {
  import opened Words
  import Modular

  predicate IsBase(base: nat) {
    2 <= base <= 16
  }

  predicate IsDigit(c: char) {
    '0' <= c <= '9' || 'a' <= c <= 'f'
  }

  function Digit(d: nat): char
    requires d < 16
  {
    if d < 10 then (48 + d) as char else (87 + d) as char
  }

  function DigitValue(c: char): Option<nat> {
    if '0' <= c <= '9' then Some((c - '0') as int)
    else if 'a' <= c <= 'f' then Some((c - 'a') as int + 10)
    else None
  }

  // %u, %x and %o without a prefix: most significant digit first, "0" for zero.
  function Digits(base: nat, n: nat): string
    requires IsBase(base)
    decreases n
  {
    if n < base then [Digit(n)] else Digits(base, n / base) + [Digit(n % base)]
  }

  // The number a string of digits denotes, or None.
  function ParseDigits(base: nat, s: string): Option<nat>
    requires IsBase(base)
  {
    if s == [] then None
    else
      match DigitValue(s[|s| - 1])
      case None => None
      case Some(d) =>
        if d >= base then None
        else if |s| == 1 then Some(d)
        else
          match ParseDigits(base, s[..|s| - 1])
          case None => None
          case Some(high) => Some(high * base + d)
  }

  lemma DigitIsDigit(d: nat)
    requires d < 16
    ensures DigitValue(Digit(d)) == Some(d)
    ensures IsDigit(Digit(d))
  {
  }

  lemma DivMod(n: nat, base: nat)
    requires 2 <= base <= n
    ensures 0 < n / base < n
    ensures (n / base) * base + n % base == n
  {
  }

  // One more digit on the right.
  lemma ParseSnoc(base: nat, s: string, high: nat, d: nat)
    requires IsBase(base) && d < base
    requires s != [] && ParseDigits(base, s) == Some(high)
    ensures ParseDigits(base, s + [Digit(d)]) == Some(high * base + d)
  {
    var t := s + [Digit(d)];
    assert t[..|t| - 1] == s && t[|t| - 1] == Digit(d);
    DigitIsDigit(d);
  }

  lemma {:induction false} ParseOfDigits(base: nat, n: nat)
    requires IsBase(base)
    ensures Digits(base, n) != []
    ensures ParseDigits(base, Digits(base, n)) == Some(n)
    decreases n
  {
    if n < base {
      DigitIsDigit(n);
    } else {
      DivMod(n, base);
      var high, d := n / base, n % base;
      ParseOfDigits(base, high);
      ParseSnoc(base, Digits(base, high), high, d);
    }
  }

  lemma {:induction false} DigitsAreDigits(base: nat, n: nat)
    requires IsBase(base)
    ensures Digits(base, n) != []
    ensures forall c :: c in Digits(base, n) ==> IsDigit(c)
    decreases n
  {
    if n >= base {
      DigitsAreDigits(base, n / base);
    }
  }

  function Decimal(n: nat): string {
    Digits(10, n)
  }

  // %d
  function Signed(i: int): string {
    if i < 0 then "-" + Decimal(-i) else Decimal(i)
  }

  function ParseSigned(s: string): Option<int> {
    if s != [] && s[0] == '-' then
      match ParseDigits(10, s[1..])
      case None => None
      case Some(n) => Some(0 - n)
    else
      match ParseDigits(10, s)
      case None => None
      case Some(n) => Some(n)
  }

  lemma ParseOfSigned(i: int)
    ensures ParseSigned(Signed(i)) == Some(i)
    ensures forall c :: c in Signed(i) ==> IsDigit(c) || c == '-'
  {
    var n := if i < 0 then -i else i;
    ParseOfDigits(10, n);
    DigitsAreDigits(10, n);
    assert IsDigit(Decimal(n)[0]);
    if i < 0 {
      assert Signed(i)[1..] == Decimal(n);
    }
  }

  // 0x%x
  function Hex(n: nat): string {
    "0x" + Digits(16, n)
  }

  function ParseHex(s: string): Option<nat> {
    if |s| >= 2 && s[..2] == "0x" then ParseDigits(16, s[2..]) else None
  }

  lemma ParseOfHex(n: nat)
    ensures Hex(n) != "" && ParseHex(Hex(n)) == Some(n)
    ensures forall c :: c in Hex(n) ==> IsDigit(c) || c == 'x'
  {
    ParseOfDigits(16, n);
    DigitsAreDigits(16, n);
    assert Hex(n)[..2] == "0x";
    assert Hex(n)[2..] == Digits(16, n);
  }

  // The last `width` decimal digits of n, zero padded: %0<width>u for n < 10^width.
  function Padded(n: nat, width: nat): string {
    if width == 0 then [] else Padded(n / 10, width - 1) + [Digit(n % 10)]
  }

  function Pow10(k: nat): nat {
    if k == 0 then 1 else 10 * Pow10(k - 1)
  }

  lemma {:induction false} ParseOfPadded(n: nat, width: nat)
    requires 0 < width && n < Pow10(width)
    ensures |Padded(n, width)| == width
    ensures ParseDigits(10, Padded(n, width)) == Some(n)
  {
    if width == 1 {
      assert Pow10(1) == 10 by { assert Pow10(0) == 1; }
      assert Padded(n, 1) == [Digit(n)] by { assert Padded(n / 10, 0) == []; }
      DigitIsDigit(n);
    } else {
      var (high, d) := (n / 10, n % 10);
      assert n == high * 10 + d && high < Pow10(width - 1);
      ParseOfPadded(high, width - 1);
      ParseSnoc(10, Padded(high, width - 1), high, d);
      assert Padded(n, width) == Padded(high, width - 1) + [Digit(d)];
      hide Padded, ParseDigits, Pow10;
    }
  }

  // ----- no shorter text denotes the same number -----

  lemma DigitOfValue(c: char)
    requires DigitValue(c).Some?
    ensures DigitValue(c).value < 16 && Digit(DigitValue(c).value) == c
  {
  }

  lemma DivModUnique(high: nat, base: nat, d: nat)
    requires d < base
    ensures (high * base + d) / base == high && (high * base + d) % base == d
  {
    Modular.ModUnique(high * base + d, base, high, d);
  }

  lemma DigitsSnoc(base: nat, high: nat, d: nat)
    requires IsBase(base) && d < base
    ensures Digits(base, high * base + d) == if high == 0 then [Digit(d)] else Digits(base, high) + [Digit(d)]
  {
    DivModUnique(high, base, d);
    if high > 0 {
      assert high * base == base + (high - 1) * base && (high - 1) * base >= 0;
    }
  }

  lemma {:induction false} DigitsAreNotEmpty(base: nat, n: nat)
    requires IsBase(base)
    ensures |Digits(base, n)| >= 1
  {
  }

  // The digits printed for a number are the only shortest ones: no leading zeros, no capital letters.
  lemma {:induction false} DigitsAreShortest(base: nat, s: string, n: nat)
    requires IsBase(base) && ParseDigits(base, s) == Some(n)
    ensures 1 <= |Digits(base, n)| <= |s|
    ensures |s| == |Digits(base, n)| ==> s == Digits(base, n)
    decreases |s|
  {
    var c := s[|s| - 1];
    DigitOfValue(c);
    var d := DigitValue(c).value;
    DigitsAreNotEmpty(base, n);
    if |s| == 1 {
      assert s == [c];
    } else {
      var init := s[..|s| - 1];
      var high := ParseDigits(base, init).value;
      assert n == high * base + d && s == init + [c];
      DigitsAreShortest(base, init, high);
      DigitsSnoc(base, high, d);
      hide Digits, ParseDigits, Digit, DigitValue;
    }
  }

  lemma HexIsShortest(s: string, n: nat)
    requires ParseHex(s) == Some(n)
    ensures |Hex(n)| <= |s| && (|s| == |Hex(n)| ==> s == Hex(n))
  {
    hide Digits, ParseDigits;
    DigitsAreShortest(16, s[2..], n);
    assert s == "0x" + s[2..];
  }

  lemma SignedIsShortest(s: string, i: int)
    requires ParseSigned(s) == Some(i)
    ensures |Signed(i)| <= |s| && (|s| == |Signed(i)| ==> s == Signed(i))
  {
    hide Digits;
    if s[0] == '-' {
      DigitsAreShortest(10, s[1..], -i);
      assert s == "-" + s[1..];
    } else {
      DigitsAreShortest(10, s, i);
    }
  }

  // Of a given width there is only one.
  lemma {:induction false} PaddedIsUnique(s: string, n: nat, width: nat)
    requires 0 < width == |s| && ParseDigits(10, s) == Some(n)
    ensures s == Padded(n, width)
    decreases width
  {
    var c := s[|s| - 1];
    DigitOfValue(c);
    if width > 1 {
      var init := s[..|s| - 1];
      var high := ParseDigits(10, init).value;
      PaddedIsUnique(init, high, width - 1);
      DivModUnique(high, 10, DigitValue(c).value);
      assert s == init + [c];
    } else {
      assert s == [c] && Padded(n / 10, 0) == [];
    }
  }
}
