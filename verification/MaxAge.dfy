/** Which responses make the parser throw: those whose max-age is no number that fits an `int`. */
module MaxAge {
  import opened Strings
  import opened Numbers
  import opened Fields
  import opened Responses
  import opened StandardCoding

  /** A decimal number as `std::stoi` reads it: blanks and a sign in front, anything that is no digit behind. */
  datatype Integer = Integer(blanks: string, sign: string, digits: string, junk: string)

  predicate IsInteger(x: Integer) {
    && AllSpace(x.blanks) && (x.sign == "" || x.sign == "+" || x.sign == "-")
    && x.digits != "" && AllDigits(x.digits, 10) && (x.junk == "" || !IsDigit(x.junk[0], 10))
  }

  function IntegerText(x: Integer): string {
    x.blanks + (x.sign + (x.digits + x.junk))
  }

  /** It fits an `int`. */
  predicate InRange(x: Integer)
    requires AllDigits(x.digits, 10)
  {
    if x.sign == "-" then ValueOf(x.digits, 10) <= TWO_31 else ValueOf(x.digits, 10) < TWO_31
  }

  /** `Magnitude` in base ten, from its parts. */
  lemma MagnitudeInTen(s: string, base: nat, t: string, u: string, n: nat)
    requires base == 10 && t == SkipSpace(s) && t != ""
    requires u == (if t[0] == '-' || t[0] == '+' then t[1..] else t) && n == DigitPrefix(u, base)
    ensures Magnitude(s, base) == if n == 0 then None else Some((t[0] == '-', ValueOf(u[..n], base)))
  {
  }

  lemma MagnitudeOfInteger(x: Integer, base: nat)
    requires base == 10 && IsInteger(x)
    ensures Magnitude(IntegerText(x), base) == Some((x.sign == "-", ValueOf(x.digits, base)))
  {
    var u := x.digits + x.junk;
    var t := x.sign + u;
    assert IsDigit(x.digits[0], base) && u[0] == x.digits[0];
    assert x.sign == "" ==> t == u;
    SkipSpaceOver(x.blanks, t);
    DigitPrefixOf(x.digits, x.junk, base);
    assert u[..|x.digits|] == x.digits;
    MagnitudeInTen(IntegerText(x), base, t, u, |x.digits|);
  }

  lemma PartsAreInteger(blanks: string, sign: string, u: string, n: nat, base: nat)
    requires base == 10 && AllSpace(blanks) && (sign == "" || sign == "+" || sign == "-")
    requires n == DigitPrefix(u, base) && 0 < n
    ensures IsInteger(Integer(blanks, sign, u[..n], u[n..]))
    ensures IntegerText(Integer(blanks, sign, u[..n], u[n..])) == blanks + (sign + u)
  {
    assert u[..n] + u[n..] == u;
  }

  lemma SplitInTen(blanks: string, t: string, u: string, n: nat, base: nat) returns (x: Integer)
    requires base == 10 && AllSpace(blanks) && t != "" && u == (if t[0] == '-' || t[0] == '+' then t[1..] else t)
    requires n == DigitPrefix(u, base) && 0 < n
    ensures IsInteger(x) && IntegerText(x) == blanks + t
  {
    var sign := SplitSign(t);
    x := Integer(blanks, sign, u[..n], u[n..]);
    PartsAreInteger(blanks, sign, u, n, base);
    assert sign + u == t;
  }

  lemma IntegerOf(s: string, base: nat) returns (x: Integer)
    requires base == 10 && Magnitude(s, base).Some?
    ensures IsInteger(x) && IntegerText(x) == s
  {
    var blanks := SkippedSpace(s);
    var t := SkipSpace(s);
    var u := if t[0] == '-' || t[0] == '+' then t[1..] else t;
    var n := DigitPrefix(u, base);
    MagnitudeInTen(s, base, t, u, n);
    x := SplitInTen(blanks, t, u, n, base);
  }

  /** `std::stoi` returns if and only if the text is such a number, in range. */
  lemma StoiExactly(s: string, base: nat)
    requires base == 10
    ensures StoiReturns(s) <==> exists x :: IsInteger(x) && IntegerText(x) == s && InRange(x)
  {
    if StoiReturns(s) {
      var x := IntegerOf(s, base);
      MagnitudeOfInteger(x, base);
      assert InRange(x);
    }
    if x :| IsInteger(x) && IntegerText(x) == s && InRange(x) {
      MagnitudeOfInteger(x, base);
    }
  }

  /** The text behind the first "max-age=" of the field. */
  ghost predicate AgeText(control: string, age: string) {
    exists p :: control == p + "max-age=" + age && Find(control, "max-age=", 0) == Some(|p|)
  }

  /** The text is no such number. */
  ghost predicate Unreadable(age: string) {
    !exists x :: IsInteger(x) && IntegerText(x) == age && InRange(x)
  }

  lemma AgeTextIs(control: string, age: string)
    ensures AgeText(control, age) <==>
            Find(control, "max-age=", 0).Some? && age == control[Find(control, "max-age=", 0).value + 8..]
  {
    if Find(control, "max-age=", 0).Some? {
      var p := Find(control, "max-age=", 0).value;
      assert control == control[..p] + "max-age=" + control[p + 8..];
    }
  }

  lemma AgeExactly(c: string, base: nat)
    requires base == 10
    ensures (exists age :: AgeText(c, age) && Unreadable(age)) <==>
            Find(c, "max-age=", 0).Some? && !StoiReturns(c[Find(c, "max-age=", 0).value + 8..])
  {
    if age :| AgeText(c, age) && Unreadable(age) {
      AgeTextIs(c, age);
      StoiExactly(age, base);
    }
    if Find(c, "max-age=", 0).Some? {
      var age := c[Find(c, "max-age=", 0).value + 8..];
      AgeTextIs(c, age);
      StoiExactly(age, base);
    }
  }

  /** The parser throws if and only if Cache-Control has a max-age, without no-store, that is not such a number. */
  lemma MaxAgeExactly(h: Headers, base: nat)
    requires base == 10
    ensures MaxAgeRaises(h) <==>
            && CACHE_CONTROL in h && (forall i :: !OccursAt(h[CACHE_CONTROL], "no-store", i))
            && exists age :: AgeText(h[CACHE_CONTROL], age) && Unreadable(age)
  {
    if CACHE_CONTROL in h {
      AgeExactly(h[CACHE_CONTROL], base);
    }
  }
}
