/** What sscanf's %f makes of a number written in decimal notation, with or without sign and point. */
module ScannedNumbers {
  import opened CourseText
  import opened PrintedNumbers
  import opened RealFacts

  ghost predicate AllDigits(s: string) {
    forall i :: 0 <= i < |s| ==> IsDigit(s[i])
  }

  ghost predicate NoDigit(rest: string) {
    rest != [] ==> !IsDigit(rest[0])
  }

  /** Writing digits behind others. */
  lemma {:induction false} ValConcat(w: string, p: string)
    requires AllDigits(w) && AllDigits(p)
    ensures AllDigits(w + p) && Val(w + p) == Val(w) * Pow10(|p|) + Val(p)
    decreases |p|
  {
    if p == [] {
      assert w + p == w;
    } else {
      var n := |p| - 1;
      ValConcat(w, p[..n]);
      assert (w + p)[..|w| + n] == w + p[..n];
      Tens(Val(w), Pow10(n));
    }
  }

  lemma Tens(a: nat, b: nat)
    ensures a * b * 10 == a * (10 * b)
  {
  }

  lemma CombinedTimes(w: string, p: string)
    requires AllDigits(w) && AllDigits(p)
    ensures Combined(w, p) * Pow10(|p|) as real == Val(w + p) as real
  {
    hide Val, Pow10;
    ValConcat(w, p);
    Fractions(Val(w), Val(p), Pow10(|p|));
  }

  lemma Fractions(a: nat, b: nat, n: nat)
    requires n > 0
    ensures (a as real + b as real / n as real) * n as real == (a * n + b) as real
  {
    var x, y, m := a as real, b as real, n as real;
    TimesQuotient(y, m);
    Distribute(m, x, y / m);
    assert (a * n) as real == x * m;
  }

  /** The digits before and behind a point, and a text that goes on with something else. */
  lemma UnsignedPoint(w: string, p: string, rest: string)
    requires AllDigits(w) && AllDigits(p) && (w != [] || p != []) && NoDigit(rest)
    ensures ScanUnsigned(w + ("." + (p + rest))) == Some(Combined(w, p))
  {
    hide Combined, Digits;
    var s := w + ("." + (p + rest));
    DigitsOf(w, "." + (p + rest));
    assert s[|w|..] == "." + (p + rest);
    assert s[|w|..][1..] == p + rest;
    DigitsOf(p, rest);
  }

  lemma UnsignedWhole(w: string, rest: string)
    requires AllDigits(w) && NoDigit(rest) && (rest != [] ==> rest[0] != '.')
    ensures ScanUnsigned(w + rest) == if w == [] then None else Some(Combined(w, []))
  {
    hide Combined, Digits;
    DigitsOf(w, rest);
    assert (w + rest)[|w|..] == rest;
  }

  /** The number written as w.p is Val(wp) / 10^|p|, whatever follows it. */
  lemma ScanPoint(w: string, p: string, rest: string) returns (v: real)
    requires AllDigits(w) && AllDigits(p) && (w != [] || p != []) && NoDigit(rest)
    ensures Scan(w + ("." + (p + rest))) == Some(v)
    ensures AllDigits(w + p) && v * Pow10(|p|) as real == Val(w + p) as real
  {
    hide ScanUnsigned, Combined;
    UnsignedPoint(w, p, rest);
    CombinedTimes(w, p);
    var s := w + ("." + (p + rest));
    assert s[0] == if w == [] then '.' else w[0];
    v := Combined(w, p);
  }

  /** A number without a point is its digits' value; without any digit there is no number. */
  lemma ScanWhole(w: string, rest: string)
    requires AllDigits(w) && NoDigit(rest)
    requires rest != [] ==> rest[0] != '.' && (w == [] ==> rest[0] != '-' && rest[0] != '+')
    ensures Scan(w + rest) == if w == [] then None else Some(Val(w) as real)
  {
    hide ScanUnsigned;
    UnsignedWhole(w, rest);
    assert Combined(w, []) == Val(w) as real by { assert Val([]) == 0; }
    assert w + rest != [] ==> (w + rest)[0] == if w == [] then rest[0] else w[0];
  }

  /** Both signs, before anything that does not begin with a sign itself. */
  lemma ScanSigned(s: string)
    requires s != [] ==> s[0] != '-' && s[0] != '+'
    ensures Scan("+" + s) == Scan(s)
    ensures Scan("-" + s) == match Scan(s) case None => None case Some(v) => Some(-v)
  {
    hide ScanUnsigned;
    assert ("+" + s)[1..] == s && ("-" + s)[1..] == s;
  }

  /** A point alone is no number, and a second sign ends the scan. */
  lemma ScanNothing(sign: char, rest: string)
    requires sign in {'-', '+'} && rest != [] && rest[0] in {'-', '+'}
    ensures Scan([sign] + rest) == None
    ensures forall t: string :: NoDigit(t) ==> Scan("." + t) == None
  {
    assert ([sign] + rest)[1..] == rest;
    assert Digits(rest) == [];
    forall t: string | NoDigit(t) ensures Scan("." + t) == None {
      assert ("." + t)[1..] == t;
      assert Digits("." + t) == [] && Digits(t) == [];
    }
  }

  /** hw2/cse307.dat, line 4. */
  lemma EightHundredths()
    ensures Scan("0.08") == Some(0.08)
  {
    hide Scan;
    var v := ScanPoint("0", "08", "");
    assert "0" + ("." + ("08" + "")) == "0.08" && "0" + "08" == "008";
    EightOf();
  }

  lemma EightOf()
    ensures Val("008") == 8 && Pow10(2) == 100
  {
    assert "008"[..2] == "00" && "00"[..1] == "0" && "0"[..0] == [];
  }
}
