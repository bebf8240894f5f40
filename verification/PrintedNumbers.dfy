/** sscanf's %f reads back what printf's %f printed, for numbers with six decimals. */
module PrintedNumbers {
  import opened CourseText

  lemma {:induction false} DecimalBack(n: nat)
    ensures forall i :: 0 <= i < |Decimal(n)| ==> IsDigit(Decimal(n)[i])
    ensures Val(Decimal(n)) == n
    decreases n
  {
    if n < 10 {
      assert Val([]) == 0;
      assert [Digit(n)][..0] == [];
    } else {
      DecimalBack(n / 10);
      assert (Decimal(n / 10) + [Digit(n % 10)])[..|Decimal(n / 10)|] == Decimal(n / 10);
    }
  }

  lemma {:induction false} PaddedBack(n: nat, k: nat)
    ensures forall i :: 0 <= i < k ==> IsDigit(Padded(n, k)[i])
    ensures n < Pow10(k) ==> Val(Padded(n, k)) == n
    decreases k
  {
    if k > 0 {
      PaddedBack(n / 10, k - 1);
      assert (Padded(n / 10, k - 1) + [Digit(n % 10)])[..k - 1] == Padded(n / 10, k - 1);
    }
  }

  /** The digits at the front end at the first other character. */
  lemma {:induction false} DigitsOf(s: string, rest: string)
    requires forall i :: 0 <= i < |s| ==> IsDigit(s[i])
    requires rest != [] ==> !IsDigit(rest[0])
    ensures Digits(s + rest) == s
    decreases |s|
  {
    if s == [] {
      assert s + rest == rest;
    } else {
      assert (s + rest)[1..] == s[1..] + rest;
      DigitsOf(s[1..], rest);
      assert Leading(s + rest) == 1 + Leading(s[1..] + rest);
      assert |Digits(s[1..] + rest)| == Leading(s[1..] + rest) == |s| - 1;
      assert (s + rest)[..|s|] == s;
    }
  }

  lemma Million()
    ensures Pow10(6) == 1000000
  {
    assert Pow10(3) == 1000;
  }

  lemma ScanParts(whole: string, part: string)
    requires forall i :: 0 <= i < |whole| ==> IsDigit(whole[i])
    requires forall i :: 0 <= i < |part| ==> IsDigit(part[i])
    requires whole != []
    ensures ScanUnsigned(whole + ("." + part)) == Some(Combined(whole, part))
  {
    hide Combined, Digits;
    var s := whole + ("." + part);
    DigitsOf(whole, "." + part);
    var rest := s[|whole|..];
    assert rest == "." + part;
    assert rest[0] == '.' && rest[1..] == part;
    DigitsOf(part, "");
    assert part + "" == part;
  }

  lemma UnsignedBack(a: nat)
    ensures ScanUnsigned(Decimal(a / 1000000) + ("." + Padded(a % 1000000, 6))) == Some(a as real / 1000000.0)
    ensures IsDigit(Decimal(a / 1000000)[0])
  {
    hide Val, ScanUnsigned, Decimal, Padded, Pow10, Combined;
    DecimalBack(a / 1000000);
    PaddedBack(a % 1000000, 6);
    Million();
    var whole, part := Decimal(a / 1000000), Padded(a % 1000000, 6);
    ScanParts(whole, part);
    CombinedIs(whole, part, a);
  }

  lemma CombinedIs(whole: string, part: string, a: nat)
    requires forall i :: 0 <= i < |whole| ==> IsDigit(whole[i])
    requires forall i :: 0 <= i < |part| ==> IsDigit(part[i])
    requires Val(whole) == a / 1000000 && Val(part) == a % 1000000 && |part| == 6
    ensures Combined(whole, part) == a as real / 1000000.0
  {
    hide Val, Pow10;
    Million();
    Millionths(a);
  }

  lemma Millionths(a: nat)
    ensures (a / 1000000) as real + (a % 1000000) as real / 1000000.0 == a as real / 1000000.0
  {
    assert a == a / 1000000 * 1000000 + a % 1000000;
    assert a as real == (a / 1000000) as real * 1000000.0 + (a % 1000000) as real;
  }

  lemma FixedBack(n: int)
    ensures Scan(Fixed(n)) == Some(n as real / 1000000.0)
  {
    hide Decimal, Padded, ScanUnsigned;
    if n < 0 {
      UnsignedBack(-n);
      assert Fixed(n)[0] == '-';
      assert Fixed(n)[1..] == Decimal(-n / 1000000) + ("." + Padded(-n % 1000000, 6));
      Negated(n);
    } else {
      UnsignedBack(n);
      assert Fixed(n) == Decimal(n / 1000000) + ("." + Padded(n % 1000000, 6));
      assert Fixed(n)[0] == Decimal(n / 1000000)[0];
    }
  }

  lemma Negated(n: int)
    ensures -((-n) as real / 1000000.0) == n as real / 1000000.0
  {
  }

  ghost predicate SixDecimals(x: real) {
    (x * 1000000.0).Floor as real == x * 1000000.0
  }

  lemma NumberBack(x: real)
    requires SixDecimals(x)
    ensures Scan(F(x)) == Some(x)
  {
    var n := (x * 1000000.0).Floor;
    assert (x * 1000000.0 + 0.5).Floor == n;
    FixedBack(n);
    assert n as real / 1000000.0 == x;
  }

  /** The characters of a printed number are digits, a point and a sign. */
  lemma NumberChars(x: real)
    ensures F(x) != [] && forall c :: c in F(x) ==> IsDigit(c) || c == '.' || c == '-'
  {
    FixedChars((x * 1000000.0 + 0.5).Floor);
  }

  lemma FixedChars(n: int)
    ensures Fixed(n) != [] && forall c :: c in Fixed(n) ==> IsDigit(c) || c == '.' || c == '-'
  {
    var a := if n < 0 then -n else n;
    var whole, part := Decimal(a / 1000000), Padded(a % 1000000, 6);
    var sign := if n < 0 then "-" else "";
    DecimalBack(a / 1000000);
    PaddedBack(a % 1000000, 6);
    CharsOf(sign, whole, part, Fixed(n));
  }

  lemma CharsOf(sign: string, whole: string, part: string, s: string)
    requires sign in {"-", ""} && whole != [] && s == sign + (whole + ("." + part))
    requires forall i :: 0 <= i < |whole| ==> IsDigit(whole[i])
    requires forall i :: 0 <= i < |part| ==> IsDigit(part[i])
    ensures s != [] && forall c :: c in s ==> IsDigit(c) || c == '.' || c == '-'
  {
    forall i | 0 <= i < |s| ensures IsDigit(s[i]) || s[i] == '.' || s[i] == '-' {
    }
  }
}
