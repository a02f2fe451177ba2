/**
 * The conversion of a numeric token to a value:
 * float(n.replace(',', '')). Values are exact reals; the literal grammar
 * float() is given is proved to hold for every token the number pattern
 * finds, so the conversion never fails.
 */
module Numbers {
  import opened Chars
  import opened Scan

  /** n.replace(',', '') */
  function StripCommas(t: string): (r: string)
    ensures ',' !in r
    ensures |r| <= |t|
  {
    if t == [] then []
    else (if t[0] == ',' then [] else [t[0]]) + StripCommas(t[1..])
  }

  lemma {:induction false} StripCommasAppend(a: string, b: string)
    ensures StripCommas(a + b) == StripCommas(a) + StripCommas(b)
    decreases |a|
  {
    if a == [] {
      assert a + b == b;
    } else {
      var h := if a[0] == ',' then [] else [a[0]];
      assert (a + b)[0] == a[0];
      assert (a + b)[1..] == a[1..] + b;
      assert StripCommas(a + b) == h + StripCommas(a[1..] + b);
      StripCommasAppend(a[1..], b);
      assert StripCommas(a) == h + StripCommas(a[1..]);
      assert h + (StripCommas(a[1..]) + StripCommas(b)) == (h + StripCommas(a[1..])) + StripCommas(b);
    }
  }

  /** Stripping only deletes the commas: a text without commas is left as it is, and a comma anywhere is dropped. */
  lemma {:induction false} StripCommasKeeps(t: string)
    requires ',' !in t
    ensures StripCommas(t) == t
    decreases |t|
  {
    if t != [] {
      StripCommasKeeps(t[1..]);
      assert t == [t[0]] + t[1..];
    }
  }

  lemma StripCommasDropsComma(a: string, b: string)
    ensures StripCommas(a + "," + b) == StripCommas(a + b)
  {
    StripCommasAppend(a + ",", b);
    StripCommasAppend(a, ",");
    StripCommasAppend(a, b);
  }

  // ---------------------------------------------------------------------
  // What float() is given: -?\d+\.?\d*
  // ---------------------------------------------------------------------

  /** The language of \d*\.?\d* */
  predicate DigitsThenFraction(x: string)
    decreases |x|
  {
    if x == [] then true
    else if IsDigit(x[0]) then DigitsThenFraction(x[1..])
    else x[0] == '.' && AllIn(x[1..], Digit)
  }

  /** The language of -?\d+\.?\d* */
  predicate FloatText(w: string) {
    var b := if w != [] && w[0] == '-' then w[1..] else w;
    b != [] && IsDigit(b[0]) && DigitsThenFraction(b[1..])
  }

  /** Stripping the commas from what follows position i of a [\d,]*\.?\d* text leaves \d*\.?\d*. */
  lemma {:induction false} StripCommasFraction(w: string, i: nat)
    requires i <= |w|
    requires IntThenFraction(w, i)
    ensures DigitsThenFraction(StripCommas(w[i..]))
    decreases |w| - i
  {
    if i < |w| {
      var x := w[i..];
      assert x[0] == w[i] && x[1..] == w[i + 1..];
      if IsDigit(w[i]) || w[i] == ',' {
        StripCommasFraction(w, i + 1);
        if IsDigit(w[i]) {
          var r := StripCommas(x);
          assert r == [x[0]] + StripCommas(x[1..]);
          assert r[0] == x[0] && r[1..] == StripCommas(x[1..]);
        } else {
          assert StripCommas(x) == StripCommas(x[1..]);
        }
      } else {
        var y := w[i + 1..];
        assert AllIn(y, Digit) by {
          forall j | 0 <= j < |y| ensures InClass(y[j], Digit) {
            assert y[j] == w[i + 1 + j];
          }
        }
        assert ',' !in y by {
          assert forall j :: 0 <= j < |y| ==> InClass(y[j], Digit);
        }
        StripCommasKeeps(y);
        assert StripCommas(x) == ['.'] + y;
      }
    }
  }

  /** From the first digit of a token on, stripping keeps that digit and leaves \d*\.?\d* after it. */
  lemma StripCommasFromDigit(t: string, b: nat)
    requires b < |t| && IsDigit(t[b]) && IntThenFraction(t, b + 1)
    ensures var r := StripCommas(t[b..]); r != [] && IsDigit(r[0]) && DigitsThenFraction(r[1..])
  {
    StripCommasFraction(t, b + 1);
    var u := t[b..];
    assert u[0] == t[b] && u[1..] == t[b + 1..];
    assert StripCommas(u) == [u[0]] + StripCommas(u[1..]);
  }

  /** Every numeric token, once its commas are stripped, is a literal float() accepts. */
  lemma NumberTokenConverts(t: string)
    requires NumberText(t)
    ensures FloatText(StripCommas(t))
  {
    if t[0] == '-' {
      StripCommasFromDigit(t, 1);
      assert t == ['-'] + t[1..];
      StripCommasAppend(['-'], t[1..]);
      var r := StripCommas(t);
      assert r[1..] == StripCommas(t[1..]);
    } else {
      StripCommasFromDigit(t, 0);
      assert t[0..] == t;
    }
  }

  // ---------------------------------------------------------------------
  // The value of a literal
  // ---------------------------------------------------------------------

  function DigitValue(c: char): (d: nat)
    requires IsDigit(c)
    ensures d <= 9
  {
    c as int - '0' as int
  }

  /** The value of the digits after the decimal point. */
  function FractionValue(ds: string): (v: real)
    requires AllIn(ds, Digit)
    ensures 0.0 <= v < 1.0
  {
    if ds == [] then 0.0
    else
      assert AllIn(ds[1..], Digit) by {
        assert forall i :: 0 <= i < |ds[1..]| ==> ds[1..][i] == ds[i + 1];
      }
      (DigitValue(ds[0]) as real + FractionValue(ds[1..])) / 10.0
  }

  /** The value of \d*\.?\d* when the integer digits before it amount to acc. */
  function Accumulate(acc: nat, x: string): (v: real)
    requires DigitsThenFraction(x)
    ensures v >= acc as real
    decreases |x|
  {
    if x == [] then acc as real
    else if IsDigit(x[0]) then Accumulate(10 * acc + DigitValue(x[0]), x[1..])
    else acc as real + FractionValue(x[1..])
  }

  /** float(w) on a literal -?\d+\.?\d*, as an exact value; the sign of the value is the sign of the literal. */
  function FloatValue(w: string): (v: real)
    requires FloatText(w)
    ensures w[0] == '-' ==> v <= 0.0
    ensures w[0] != '-' ==> v >= 0.0
  {
    var neg := w[0] == '-';
    var b := if neg then w[1..] else w;
    var m := Accumulate(DigitValue(b[0]), b[1..]);
    if neg then -m else m
  }

  /** The value of a numeric token: float(n.replace(',', '')). */
  function TokenValue(t: string): (v: real)
    requires NumberText(t)
    ensures t[0] == '-' ==> v <= 0.0
    ensures t[0] != '-' ==> v >= 0.0
  {
    NumberTokenConverts(t);
    assert StripCommas(t)[0] == t[0] by {
      assert StripCommas(t) == [t[0]] + StripCommas(t[1..]);
    }
    FloatValue(StripCommas(t))
  }

  /** The values of a line: float(n.replace(',', '')) for each token. */
  function Values(tokens: seq<string>): seq<real>
    requires forall i :: 0 <= i < |tokens| ==> NumberText(tokens[i])
  {
    seq(|tokens|, i requires 0 <= i < |tokens| => TokenValue(tokens[i]))
  }

  // ---------------------------------------------------------------------
  // Thousands separators do not change a value
  // ---------------------------------------------------------------------

  /** Inside the integer part, a comma can be deleted without leaving [\d,]*\.?\d*. */
  lemma {:induction false} SeparatorInIntegerPart(a: string, b: string, i: nat)
    requires i <= |a|
    requires IntThenFraction(a + "," + b, i)
    ensures IntThenFraction(a + b, i)
    decreases |a| - i
  {
    var w, v := a + "," + b, a + b;
    if i == |a| {
      assert w[i] == ',';
      SeparatorAfterComma(a, b, i);
    } else {
      assert w[i] == a[i] && v[i] == a[i];
      if IsDigit(a[i]) || a[i] == ',' {
        SeparatorInIntegerPart(a, b, i + 1);
      } else {
        forall j | i + 1 <= j < |v| ensures InClass(v[j], Digit) {
          if j < |a| {
            assert v[j] == w[j];
          } else {
            assert v[j] == w[j + 1];
          }
        }
      }
    }
  }

  /** After the deleted comma the two texts agree, one position apart. */
  lemma {:induction false} SeparatorAfterComma(a: string, b: string, i: nat)
    requires |a| <= i <= |a| + |b|
    requires IntThenFraction(a + "," + b, i + 1)
    ensures IntThenFraction(a + b, i)
    decreases |a| + |b| - i
  {
    var w, v := a + "," + b, a + b;
    if i < |v| {
      assert v[i] == w[i + 1];
      if IsDigit(v[i]) || v[i] == ',' {
        SeparatorAfterComma(a, b, i + 1);
      } else {
        forall j | i + 1 <= j < |v| ensures InClass(v[j], Digit) {
          assert v[j] == w[j + 1];
        }
      }
    }
  }

  /**
   * Deleting one thousands separator from a numeric token leaves a numeric
   * token with the same value: float(n.replace(',', '')) does not depend on
   * where the separators are.
   */
  lemma TokenValueIgnoresSeparator(a: string, b: string)
    requires NumberText(a + "," + b)
    ensures NumberText(a + b)
    ensures TokenValue(a + "," + b) == TokenValue(a + b)
  {
    var w, v := a + "," + b, a + b;
    var k := if w[0] == '-' then 1 else 0;
    assert w[|a|] == ',';
    assert k < |a|;
    assert v[0] == w[0] && v[k] == w[k];
    SeparatorInIntegerPart(a, b, k + 1);
    StripCommasDropsComma(a, b);
  }

  /** The values of a line are the same whichever thousands separators its tokens carry. */
  lemma ValuesIgnoreSeparators(ts: seq<string>, us: seq<string>)
    requires |ts| == |us|
    requires forall i :: 0 <= i < |ts| ==> NumberText(ts[i]) && NumberText(us[i])
    requires forall i :: 0 <= i < |ts| ==> StripCommas(ts[i]) == StripCommas(us[i])
    ensures Values(ts) == Values(us)
  {
  }

  // ---------------------------------------------------------------------
  // Round trip: printing a number and reading it back
  // ---------------------------------------------------------------------

  function DigitChar(d: nat): (c: char)
    requires d <= 9
    ensures IsDigit(c) && DigitValue(c) == d
  {
    ('0' as int + d) as char
  }

  /** str(n) for a natural number n. */
  function DecimalString(n: nat): (s: string)
    ensures s != [] && AllIn(s, Digit)
  {
    if n < 10 then [DigitChar(n)]
    else
      var s := DecimalString(n / 10) + [DigitChar(n % 10)];
      assert forall i :: 0 <= i < |s| - 1 ==> s[i] == DecimalString(n / 10)[i];
      s
  }

  lemma {:induction false} DigitsAreFraction(x: string)
    requires AllIn(x, Digit)
    ensures DigitsThenFraction(x)
    decreases |x|
  {
    if x != [] {
      assert forall i :: 0 <= i < |x[1..]| ==> x[1..][i] == x[i + 1];
      DigitsAreFraction(x[1..]);
    }
  }

  /** One more integer digit multiplies the value so far by ten and adds the digit. */
  lemma {:induction false} AccumulateSnoc(acc: nat, ds: string, c: char)
    requires AllIn(ds, Digit) && IsDigit(c)
    ensures DigitsThenFraction(ds) && DigitsThenFraction(ds + [c])
    ensures Accumulate(acc, ds + [c]) == Accumulate(acc, ds) * 10.0 + DigitValue(c) as real
    decreases |ds|
  {
    DigitsAreFraction(ds);
    DigitsAreFraction(ds + [c]);
    if ds == [] {
      assert ds + [c] == [c];
      assert [c][1..] == [];
    } else {
      assert (ds + [c])[0] == ds[0];
      assert (ds + [c])[1..] == ds[1..] + [c];
      assert forall i :: 0 <= i < |ds[1..]| ==> ds[1..][i] == ds[i + 1];
      AccumulateSnoc(10 * acc + DigitValue(ds[0]), ds[1..], c);
    }
  }

  /** Reading back the decimal form of n gives n, with or without a minus sign. */
  lemma {:induction false} FloatOfDecimal(n: nat)
    ensures FloatText(DecimalString(n)) && FloatValue(DecimalString(n)) == n as real
    ensures FloatText("-" + DecimalString(n)) && FloatValue("-" + DecimalString(n)) == -(n as real)
  {
    var s := DecimalString(n);
    assert forall i :: 0 <= i < |s[1..]| ==> s[1..][i] == s[i + 1];
    DigitsAreFraction(s[1..]);
    var m := ['-'] + s;
    assert m[1..] == s;
    if n >= 10 {
      var t := DecimalString(n / 10);
      FloatOfDecimal(n / 10);
      var c := DigitChar(n % 10);
      assert s == t + [c];
      assert s[0] == t[0];
      assert s[1..] == t[1..] + [c];
      assert forall i :: 0 <= i < |t[1..]| ==> t[1..][i] == t[i + 1];
      AccumulateSnoc(DigitValue(t[0]), t[1..], c);
      assert n == (n / 10) * 10 + n % 10;
    }
  }

  // ---------------------------------------------------------------------
  // The value of any literal, against positional notation
  // ---------------------------------------------------------------------

  function Pow10(k: nat): (p: nat)
    ensures p >= 1
  {
    if k == 0 then 1 else 10 * Pow10(k - 1)
  }

  /** The whole number a string of digits spells in positional notation, read from its last digit. */
  function DigitsValue(ds: string): (n: nat)
    requires AllIn(ds, Digit)
    ensures n < Pow10(|ds|)
  {
    if ds == [] then 0
    else
      var init := ds[..|ds| - 1];
      assert AllIn(init, Digit) by {
        assert forall i :: 0 <= i < |init| ==> init[i] == ds[i];
      }
      10 * DigitsValue(init) + DigitValue(ds[|ds| - 1])
  }

  /** A leading digit contributes its value times the place value of its position. */
  lemma {:induction false} DigitsValueCons(c: char, t: string)
    requires IsDigit(c) && AllIn(t, Digit)
    ensures AllIn([c] + t, Digit)
    ensures DigitsValue([c] + t) == DigitValue(c) * Pow10(|t|) + DigitsValue(t)
    decreases |t|
  {
    var u := [c] + t;
    assert forall i :: 0 < i < |u| ==> u[i] == t[i - 1];
    if t != [] {
      var t0 := t[..|t| - 1];
      assert AllIn(t0, Digit) by {
        assert forall i :: 0 <= i < |t0| ==> t0[i] == t[i];
      }
      DigitsValueCons(c, t0);
      assert u[..|u| - 1] == [c] + t0;
      assert u[|u| - 1] == t[|t| - 1];
      MulTen(DigitValue(c), Pow10(|t0|));
    }
  }

  lemma MulTen(d: nat, p: nat)
    ensures 10 * (d * p) == d * (10 * p)
  {
  }

  lemma ShiftStep(acc: nat, d: nat, p: nat)
    ensures (10 * acc + d) * p == acc * (10 * p) + d * p
  {
  }

  lemma RatioStep(d: real, x: real, p: real)
    requires p > 0.0
    ensures (d + x / p) / 10.0 == (d * p + x) / (10.0 * p)
  {
    assert d + x / p == (d * p + x) / p;
  }

  /** One step of FractionIsRatio, on the values involved. */
  lemma FractionStep(f: real, ft: real, n: nat, q: nat, d: nat, x: nat, p: nat)
    requires p >= 1 && f == (d as real + ft) / 10.0 && ft == x as real / p as real
    requires n == d * p + x && q == 10 * p
    ensures f == n as real / q as real
  {
    RatioNat(d, x, p);
  }

  lemma RatioNat(d: nat, x: nat, p: nat)
    requires p >= 1
    ensures (d as real + x as real / p as real) / 10.0 == (d * p + x) as real / (10 * p) as real
  {
    RatioStep(d as real, x as real, p as real);
    assert (d * p) as real == d as real * p as real;
    assert (10 * p) as real == 10.0 * p as real;
  }

  /** The digits after the point have the value of the digits as a whole number, over ten to their count. */
  lemma {:induction false} FractionIsRatio(ds: string)
    requires AllIn(ds, Digit)
    ensures FractionValue(ds) == DigitsValue(ds) as real / Pow10(|ds|) as real
    decreases |ds|
  {
    if ds != [] {
      var t := ds[1..];
      assert AllIn(t, Digit) by {
        assert forall i :: 0 <= i < |t| ==> t[i] == ds[i + 1];
      }
      FractionIsRatio(t);
      assert ds == [ds[0]] + t;
      DigitsValueCons(ds[0], t);
      FractionStep(FractionValue(ds), FractionValue(t), DigitsValue(ds), Pow10(|ds|),
                   DigitValue(ds[0]), DigitsValue(t), Pow10(|t|));
    }
  }

  /** Integer digits read so far as acc, followed by the digits x: acc shifted left by |x| places, plus x. */
  lemma {:induction false} AccumulateDigits(acc: nat, x: string)
    requires AllIn(x, Digit)
    ensures DigitsThenFraction(x)
    ensures Accumulate(acc, x) == (acc * Pow10(|x|) + DigitsValue(x)) as real
    decreases |x|
  {
    DigitsAreFraction(x);
    if x != [] {
      var t := x[1..];
      assert AllIn(t, Digit) by {
        assert forall i :: 0 <= i < |t| ==> t[i] == x[i + 1];
      }
      var d := DigitValue(x[0]);
      AccumulateDigits(10 * acc + d, t);
      assert x == [x[0]] + t;
      DigitsValueCons(x[0], t);
      ShiftStep(acc, d, Pow10(|t|));
    }
  }

  lemma LiteralTail(x: string, ds: string)
    requires x != []
    ensures (x + "." + ds)[0] == x[0]
    ensures (x + "." + ds)[1..] == x[1..] + "." + ds
  {
    var y := x + "." + ds;
    assert forall i :: 0 <= i < |y| - 1 ==> y[1..][i] == (x[1..] + "." + ds)[i];
  }

  /** Integer digits x, the point and the fraction digits ds: the value of x plus that of the fraction. */
  lemma {:induction false} AccumulateFraction(acc: nat, x: string, ds: string)
    requires AllIn(x, Digit) && AllIn(ds, Digit)
    ensures DigitsThenFraction(x) && DigitsThenFraction(x + "." + ds)
    ensures Accumulate(acc, x + "." + ds) == Accumulate(acc, x) + FractionValue(ds)
    decreases |x|
  {
    DigitsAreFraction(x);
    var y := x + "." + ds;
    if x == [] {
      assert y[0] == '.' && y[1..] == ds;
    } else {
      var t := x[1..];
      assert AllIn(t, Digit) by {
        assert forall i :: 0 <= i < |t| ==> t[i] == x[i + 1];
      }
      LiteralTail(x, ds);
      AccumulateFraction(10 * acc + DigitValue(x[0]), t, ds);
    }
  }

  /**
   * float() on an unsigned literal \d+ or \d+\.\d*: the integer digits in
   * positional notation, plus the fraction digits over ten to their count.
   */
  lemma UnsignedLiteralValue(x: string, ds: string)
    requires x != [] && AllIn(x, Digit) && AllIn(ds, Digit)
    ensures FloatText(x) && FloatValue(x) == DigitsValue(x) as real
    ensures FloatText(x + "." + ds)
    ensures FloatValue(x + "." + ds) == DigitsValue(x) as real + DigitsValue(ds) as real / Pow10(|ds|) as real
  {
    var t := x[1..];
    assert AllIn(t, Digit) by {
      assert forall i :: 0 <= i < |t| ==> t[i] == x[i + 1];
    }
    assert InClass(x[0], Digit);
    var d := DigitValue(x[0]);
    AccumulateDigits(d, t);
    assert x == [x[0]] + t;
    DigitsValueCons(x[0], t);
    LiteralTail(x, ds);
    AccumulateFraction(d, t, ds);
    FractionIsRatio(ds);
  }

  /** A minus sign in front of an unsigned literal negates its value. */
  lemma NegatedLiteral(u: string)
    requires FloatText(u) && u[0] != '-'
    ensures FloatText("-" + u) && FloatValue("-" + u) == -FloatValue(u)
  {
    SignTail(u);
  }

  lemma SignTail(r: string)
    ensures ("-" + r)[0] == '-' && ("-" + r)[1..] == r
  {
  }

  // A worked example, split into small steps that are cheap to check.

  lemma ExampleStripped()
    ensures StripCommas("12,345.67") == "12345.67"
  {
    var a, b := "12", "345.67";
    ExamplePieces(a, b);
    StripCommasDropsComma(a, b);
    StripCommasKeeps(a + b);
  }

  /** The example token is its two digit groups around a comma, and the joined digits hold no comma. */
  lemma ExamplePieces(a: string, b: string)
    requires a == "12" && b == "345.67"
    ensures a + "," + b == "12,345.67" && a + b == "12345.67"
    ensures ',' !in a + b
  {
    assert forall i :: 0 <= i < |a + b| ==> (a + b)[i] != ',';
  }

  lemma ExampleFraction()
    ensures Accumulate(12345, ".67") == 12345.67
  {
    assert FractionValue("7") == 0.7;
    assert FractionValue("67") == 0.67;
  }

  /** A leading integer digit is folded into the value so far. */
  lemma AccumulateCons(acc: nat, c: char, x: string)
    requires IsDigit(c) && DigitsThenFraction(x)
    ensures DigitsThenFraction([c] + x)
    ensures Accumulate(acc, [c] + x) == Accumulate(10 * acc + DigitValue(c), x)
  {
    assert ([c] + x)[0] == c && ([c] + x)[1..] == x;
  }

  lemma ExampleLiteral()
    ensures FloatText("12345.67") && FloatValue("12345.67") == 12345.67
  {
    var x0 := ".67";
    var x1 := ['5'] + x0;
    var x2 := ['4'] + x1;
    var x3 := ['3'] + x2;
    var x4 := ['2'] + x3;
    ExampleFraction();
    AccumulateCons(1234, '5', x0);
    AccumulateCons(123, '4', x1);
    AccumulateCons(12, '3', x2);
    AccumulateCons(1, '2', x3);
    var w := ['1'] + x4;
    assert w[0] == '1' && w[1..] == x4;
    assert w == "12345.67";
  }

  lemma ExampleToken()
    ensures NumberText("12,345.67")
  {
    var w := "12,345.67";
    assert IntThenFraction(w, 6);
    assert IntThenFraction(w, 5);
    assert IntThenFraction(w, 4);
    assert IntThenFraction(w, 3);
    assert IntThenFraction(w, 2);
    assert IntThenFraction(w, 1);
  }

  /** The thousands separators are dropped: "12,345.67" reads as 12345.67. */
  lemma TokenValueExample()
    ensures NumberText("12,345.67") && TokenValue("12,345.67") == 12345.67
  {
    ExampleStripped();
    ExampleLiteral();
    ExampleToken();
  }
}
