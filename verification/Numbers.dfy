/** Numbers in text, read as `std::stoul` and `std::stoi` read them, and the machine words they end up in. */
module Numbers {
  import opened Strings

  const TWO_31: int := 0x8000_0000
  const TWO_32: int := 0x1_0000_0000
  const TWO_64: int := 0x1_0000_0000_0000_0000

  /** Conversion to `uint32_t`. */
  function U32(x: int): (r: int)
    ensures 0 <= r < TWO_32
    ensures 0 <= x < TWO_32 ==> r == x
  {
    x % TWO_32
  }

  /** Conversion to `int`. */
  function I32(x: int): (r: int)
    ensures -TWO_31 <= r < TWO_31
    ensures -TWO_31 <= x < TWO_31 ==> r == x
  {
    (x + TWO_31) % TWO_32 - TWO_31
  }

  // ------------------------------------------------------------------ digits

  predicate IsSpace(c: char) {
    c == ' ' || 9 <= c as int <= 13
  }

  /** The value of a digit in bases up to 16, or -1. */
  function DigitValue(c: char): (d: int)
    ensures -1 <= d < 16
  {
    if '0' <= c <= '9' then c as int - '0' as int
    else if 'a' <= c <= 'f' then c as int - 'a' as int + 10
    else if 'A' <= c <= 'F' then c as int - 'A' as int + 10
    else -1
  }

  predicate IsDigit(c: char, base: nat) {
    0 <= DigitValue(c) < base
  }

  predicate AllDigits(s: string, base: nat) {
    forall i :: 0 <= i < |s| ==> IsDigit(s[i], base)
  }

  /** The number written by a string of digits, most significant first. */
  function ValueOf(s: string, base: nat): nat
    requires AllDigits(s, base)
  {
    if s == "" then 0
    else base * ValueOf(s[..|s| - 1], base) + DigitValue(s[|s| - 1])
  }

  function SkipSpace(s: string): string {
    if s != "" && IsSpace(s[0]) then SkipSpace(s[1..]) else s
  }

  /** The length of the longest prefix made of digits. */
  function DigitPrefix(s: string, base: nat): (n: nat)
    ensures n <= |s| && AllDigits(s[..n], base)
    ensures n < |s| ==> !IsDigit(s[n], base)
  {
    if s == "" || !IsDigit(s[0], base) then 0
    else
      var n := 1 + DigitPrefix(s[1..], base);
      assert s[..n] == [s[0]] + s[1..][..n - 1];
      n
  }

  /** Sign and magnitude as `strtoul` and `strtol` split them; `None` when no digit is found. */
  function Magnitude(s: string, base: nat): Option<(bool, nat)> {
    var t := SkipSpace(s);
    var signed := t != "" && (t[0] == '-' || t[0] == '+');
    var u := if signed then t[1..] else t;
    var hexMark := base == 16 && |u| >= 3 && u[0] == '0' && (u[1] == 'x' || u[1] == 'X') && IsDigit(u[2], 16);
    var w := if hexMark then u[2..] else u;
    var n := DigitPrefix(w, base);
    if n == 0 then None else Some((signed && t[0] == '-', ValueOf(w[..n], base)))
  }

  /** `std::stoul`: `None` stands for both of its exceptions. Junk after the digits is ignored and a minus
      sign negates modulo 2^64, as in the library. */
  function Stoul(s: string, base: nat): (r: Option<nat>)
    ensures r.Some? ==> r.value < TWO_64
  {
    match Magnitude(s, base)
    case None => None
    case Some((negative, v)) =>
      if v >= TWO_64 then None
      else if negative && v > 0 then Some(TWO_64 - v)
      else Some(v)
  }

  /** Whether `std::stoi` returns instead of throwing. */
  predicate StoiReturns(s: string) {
    match Magnitude(s, 10)
    case None => false
    case Some((negative, v)) => if negative then v <= TWO_31 else v < TWO_31
  }

  lemma DigitPrefixAll(s: string, base: nat)
    requires AllDigits(s, base)
    ensures DigitPrefix(s, base) == |s|
  {
  }

  /** Digits have no sign and no mark in front. */
  lemma DigitsAlone(s: string, base: nat)
    requires (base == 10 || base == 16) && s != "" && AllDigits(s, base)
    ensures SkipSpace(s) == s && s[0] != '-' && s[0] != '+' && (|s| >= 2 ==> s[1] != 'x' && s[1] != 'X')
  {
    assert IsDigit(s[0], base);
    if |s| >= 2 {
      assert IsDigit(s[1], base);
    }
  }

  lemma MagnitudeOfDigits(s: string, base: nat)
    requires (base == 10 || base == 16) && s != "" && AllDigits(s, base)
    ensures Magnitude(s, base) == Some((false, ValueOf(s, base)))
  {
    DigitsAlone(s, base);
    DigitPrefixAll(s, base);
    assert s[..|s|] == s;
  }

  /** A plain digit string is read back as its value. */
  lemma StoulReadsDigits(s: string, base: nat)
    requires base == 10 || base == 16
    requires s != "" && AllDigits(s, base) && ValueOf(s, base) < TWO_64
    ensures Stoul(s, base) == Some(ValueOf(s, base))
  {
    MagnitudeOfDigits(s, base);
  }

  lemma ValueOfOneDigit(c: char, base: nat)
    requires IsDigit(c, base)
    ensures ValueOf([c], base) == DigitValue(c)
  {
    var s := [c];
    assert s[..0] == "";
    assert ValueOf(s[..0], base) == 0;
    assert ValueOf(s, base) == base * ValueOf(s[..|s| - 1], base) + DigitValue(s[|s| - 1]);
  }

  /** A one-character text is a number only when the character is a digit. */
  lemma StoulOfOneChar(c: char)
    ensures Stoul([c], 10) == if '0' <= c <= '9' then Some(c as int - '0' as int) else None
  {
    var s := [c];
    assert s[1..] == "";
    if IsDigit(c, 10) {
      ValueOfOneDigit(c, 10);
      StoulReadsDigits(s, 10);
    } else if IsSpace(c) {
      assert SkipSpace(s) == "";
    } else {
      assert SkipSpace(s) == s;
    }
  }

  // ------------------------------------------------------------------ decimal text

  /** The decimal text of a number. */
  function Decimal(n: nat): (s: string)
    ensures s != "" && AllDigits(s, 10)
  {
    if n < 10 then ['0' + n as char]
    else Decimal(n / 10) + ['0' + (n % 10) as char]
  }

  lemma {:induction false} DecimalValue(n: nat)
    ensures ValueOf(Decimal(n), 10) == n
  {
    var s := Decimal(n);
    if n >= 10 {
      DecimalValue(n / 10);
      assert s[..|s| - 1] == Decimal(n / 10);
    } else {
      assert s[..0] == "";
    }
  }

  lemma DecimalReads(n: nat)
    requires n < TWO_64
    ensures Stoul(Decimal(n), 10) == Some(n)
  {
    DecimalValue(n);
    StoulReadsDigits(Decimal(n), 10);
  }
}
