/** `util.Money`: free text to integer cents, and cents to an "NT$" display string.

    `parseCents` goes through a `double`. The model replaces the double by the exact
    decimal the text denotes: `DecimalCents` is that decimal times 100, rounded half up as
    `Math.round` does, and the `(int)` cast of the rounded `long` is `Wrap32`. */
module Money {
  import opened Common
  import Text

  predicate IsDigit(c: char) {
    '0' <= c <= '9'
  }

  predicate AllDigits(s: string) {
    forall i :: 0 <= i < |s| ==> IsDigit(s[i])
  }

  /** The characters the pattern `[^0-9.]` does not match. */
  predicate Kept(c: char) {
    IsDigit(c) || c == '.'
  }

  /** `s.replaceAll("[^0-9.]", "")`: every character but digits and dots removed, the
      rest in order. */
  function Strip(s: string): (t: string)
    ensures forall i :: 0 <= i < |t| ==> Kept(t[i]) && t[i] in s
    ensures forall i :: 0 <= i < |s| && Kept(s[i]) ==> s[i] in t
    ensures |t| <= |s|
  {
    if s == [] then []
    else
      var c := s[|s| - 1];
      assert forall i :: 0 <= i < |s| - 1 ==> s[..|s| - 1][i] == s[i];
      Strip(s[..|s| - 1]) + (if Kept(c) then [c] else [])
  }

  lemma {:induction false} StripAppend(a: string, b: string)
    ensures Strip(a + b) == Strip(a) + Strip(b)
    decreases |b|
  {
    if b != [] {
      var b' := b[..|b| - 1];
      assert (a + b)[..|a + b| - 1] == a + b';
      StripAppend(a, b');
    } else {
      assert a + b == a;
    }
  }

  /** Text made of digits and dots only comes through unchanged. */
  lemma {:induction false} StripKeepsWhitelisted(s: string)
    requires forall i :: 0 <= i < |s| ==> Kept(s[i])
    ensures Strip(s) == s
  {
    if s != [] {
      StripKeepsWhitelisted(s[..|s| - 1]);
      assert s == s[..|s| - 1] + [s[|s| - 1]];
    }
  }

  function DotCount(t: string): nat {
    if t == [] then 0 else DotCount(t[..|t| - 1]) + (if t[|t| - 1] == '.' then 1 else 0)
  }

  lemma {:induction false} DotCountAppend(a: string, b: string)
    ensures DotCount(a + b) == DotCount(a) + DotCount(b)
    decreases |b|
  {
    if b != [] {
      assert (a + b)[..|a + b| - 1] == a + b[..|b| - 1];
      DotCountAppend(a, b[..|b| - 1]);
    } else {
      assert a + b == a;
    }
  }

  lemma {:induction false} DotCountDigits(d: string)
    requires AllDigits(d)
    ensures DotCount(d) == 0
  {
    if d != [] {
      DotCountDigits(d[..|d| - 1]);
    }
  }

  predicate HasDigit(t: string) {
    exists i :: 0 <= i < |t| && IsDigit(t[i])
  }

  /** Of the texts made of digits and dots, the ones `Double.parseDouble` accepts: at most
      one dot and at least one digit (`1`, `1.`, `.5`, `1.5`). */
  predicate IsDecimal(t: string) {
    DotCount(t) <= 1 && HasDigit(t)
  }

  /** The digits of `t` with its dot taken out. */
  function Digits(t: string): (d: string)
    requires forall i :: 0 <= i < |t| ==> Kept(t[i])
    ensures AllDigits(d)
  {
    if t == [] then []
    else
      var c := t[|t| - 1];
      assert Kept(c);
      Digits(t[..|t| - 1]) + (if c == '.' then [] else [c])
  }

  lemma {:induction false} DigitsAppend(a: string, b: string)
    requires forall i :: 0 <= i < |a| ==> Kept(a[i])
    requires forall i :: 0 <= i < |b| ==> Kept(b[i])
    ensures Digits(a + b) == Digits(a) + Digits(b)
    decreases |b|
  {
    if b != [] {
      var b', c := b[..|b| - 1], b[|b| - 1];
      var e := if c == '.' then [] else [c];
      assert (a + b)[..|a + b| - 1] == a + b';
      assert (a + b)[|a + b| - 1] == c;
      DigitsAppend(a, b');
      assert Digits(a + b) == Digits(a + b') + e;
      assert Digits(b) == Digits(b') + e;
    } else {
      assert a + b == a;
    }
  }

  lemma {:induction false} DigitsOfDigits(d: string)
    requires AllDigits(d)
    ensures Digits(d) == d
  {
    if d != [] {
      DigitsOfDigits(d[..|d| - 1]);
      assert d == d[..|d| - 1] + [d[|d| - 1]];
    }
  }

  /** Number of digits after the dot (0 without a dot). */
  function FracLen(t: string): nat {
    if t == [] || t[|t| - 1] == '.' || DotCount(t[..|t| - 1]) == 0 then 0
    else FracLen(t[..|t| - 1]) + 1
  }

  function DigitValue(c: char): nat
    requires IsDigit(c)
  {
    c as int - '0' as int
  }

  function DigitChar(d: nat): (c: char)
    requires d < 10
    ensures IsDigit(c) && DigitValue(c) == d
  {
    ('0' as int + d) as char
  }

  /** The number a string of decimal digits denotes. */
  function DigitsValue(d: string): nat
    requires AllDigits(d)
  {
    if d == [] then 0 else DigitsValue(d[..|d| - 1]) * 10 + DigitValue(d[|d| - 1])
  }

  function Pow10(k: nat): (p: nat)
    ensures p >= 1
  {
    if k == 0 then 1 else 10 * Pow10(k - 1)
  }

  lemma {:induction false} DigitsValueAppend(a: string, b: string)
    requires AllDigits(a) && AllDigits(b)
    ensures DigitsValue(a + b) == DigitsValue(a) * Pow10(|b|) + DigitsValue(b)
    decreases |b|
  {
    if b == [] {
      assert a + b == a;
    } else {
      var b' := b[..|b| - 1];
      assert (a + b)[..|a + b| - 1] == a + b';
      DigitsValueAppend(a, b');
      var x, p, y, d := DigitsValue(a), Pow10(|b'|), DigitsValue(b'), DigitValue(b[|b| - 1]);
      assert (a + b)[|a + b| - 1] == b[|b| - 1];
      assert DigitsValue(a + b) == (x * p + y) * 10 + d;
      assert DigitsValue(b) == y * 10 + d;
      assert Pow10(|b|) == p * 10;
      ShiftDigit(x, p, y, d);
    }
  }

  lemma ShiftDigit(x: int, p: int, y: int, d: int)
    ensures (x * p + y) * 10 + d == x * (p * 10) + (y * 10 + d)
  {
  }

  /** `n / p` times 100, rounded to the nearest integer with halves going up. */
  function RoundedCents(n: nat, p: nat): (c: nat)
    requires p >= 1
    ensures c * (2 * p) <= n * 200 + p < (c + 1) * (2 * p)
  {
    var x := n * 200 + p;
    DivBounds(x, 2 * p);
    x / (2 * p)
  }

  /** The decimal `t` denotes, times 100 and rounded:
      `Math.round(Double.parseDouble(t) * 100.0)` over exact decimals. */
  function DecimalCents(t: string): nat
    requires forall i :: 0 <= i < |t| ==> Kept(t[i])
  {
    RoundedCents(DigitsValue(Digits(t)), Pow10(FracLen(t)))
  }

  lemma DivBounds(x: nat, y: nat)
    requires y > 0
    ensures (x / y) * y <= x < (x / y + 1) * y
  {
  }

  /** Text with no digit and no dot strips to nothing; white space is such text. */
  lemma StripNothingKept(s: string)
    requires (forall i :: 0 <= i < |s| ==> !Kept(s[i])) || Text.IsBlank(s)
    ensures Strip(s) == []
  {
  }

  /** `Money.parseCents`. */
  function ParseCents(s: Option<string>): (r: Result<Int32>)
    ensures s.None? || Text.IsBlank(s.value) ==> r == Ok(0)
    ensures s.Some? && Strip(s.value) == [] ==> r == Ok(0)
    ensures r.Err? <==> s.Some? && Strip(s.value) != [] && !IsDecimal(Strip(s.value))
    ensures r.Err? ==> r.error == NumberFormat
    ensures r.Ok? && s.Some? && Strip(s.value) != [] ==> r.value == Wrap32(DecimalCents(Strip(s.value)))
  {
    if s.None? then Ok(0)
    else if Text.IsBlank(s.value) then
      StripNothingKept(s.value);
      Ok(0)
    else
      var t := Strip(s.value);
      if t == [] then Ok(0)
      else if !IsDecimal(t) then Err(NumberFormat)
      else Ok(Wrap32(DecimalCents(t)))
  }

  /** A plain number of whole units parses to that many units times 100. */
  lemma ParseWholeUnits(t: string)
    requires t != [] && AllDigits(t)
    requires DigitsValue(t) * 100 <= MaxInt32
    ensures ParseCents(Some(t)) == Ok(DigitsValue(t) * 100)
  {
    DotCountDigits(t);
    assert IsDigit(t[0]);
    ParseDecimal(t);
    WholeCents(t);
  }

  /** Digits and dots forming a decimal parse to its rounded cents. */
  lemma ParseDecimal(t: string)
    requires (forall i :: 0 <= i < |t| ==> Kept(t[i])) && IsDecimal(t)
    ensures ParseCents(Some(t)) == Ok(Wrap32(DecimalCents(t)))
  {
    StripKeepsWhitelisted(t);
    var i :| 0 <= i < |t| && IsDigit(t[i]);
    assert !Text.IsJavaWhitespace(t[i]);
  }

  /** A whole number's cents are exact. */
  lemma WholeCents(t: string)
    requires AllDigits(t)
    ensures DecimalCents(t) == DigitsValue(t) * 100
  {
    DigitsOfDigits(t);
    if t != [] {
      DotCountDigits(t[..|t| - 1]);
    }
    var n := DigitsValue(t);
    var c := RoundedCents(n, 1);
    assert c * 2 <= n * 200 + 1 < (c + 1) * 2;
  }

  /** The whitelist drops a minus sign, so a negative amount parses as its absolute value. */
  lemma ParseIgnoresMinus(t: string)
    ensures ParseCents(Some("-" + t)) == ParseCents(Some(t))
  {
    var m := "-" + t;
    StripAppend("-", t);
    StripNothingKept("-");
    assert Strip(m) == Strip(t);
    assert !Text.IsJavaWhitespace(m[0]);
    assert !Text.IsBlank(m);
    if Text.IsBlank(t) {
      StripNothingKept(t);
    }
  }

  /** Parsed amounts are never negative unless the cents overflow an `int`. */
  lemma ParseNonNegative(s: Option<string>)
    requires ParseCents(s).Ok?
    requires s.Some? && Strip(s.value) != [] ==> DecimalCents(Strip(s.value)) <= MaxInt32
    ensures ParseCents(s).value >= 0
  {
  }

  /** Decimal digits of `n`, most significant first, no leading zeros. */
  function NatToDigits(n: nat): (s: string)
    ensures s != [] && AllDigits(s)
    ensures DigitsValue(s) == n
  {
    if n < 10 then [DigitChar(n)]
    else
      var s := NatToDigits(n / 10) + [DigitChar(n % 10)];
      assert s[..|s| - 1] == NatToDigits(n / 10);
      s
  }

  function Abs(x: int): nat {
    if x < 0 then -x else x
  }

  /** What `%.2f` prints for `a / 100.0`: whole units, a dot, two digits of cents. */
  function AmountText(a: nat): (t: string)
    ensures |t| >= 4 && t[|t| - 3] == '.' && IsDigit(t[|t| - 2]) && IsDigit(t[|t| - 1])
  {
    NatToDigits(a / 100) + "." + [DigitChar(a % 100 / 10), DigitChar(a % 10)]
  }

  /** `Money.formatNTD`: `String.format("NT$%.2f", cents / 100.0)`: the prefix, a minus
      sign for negative amounts, then the amount with exactly two decimals. */
  function FormatNTD(cents: Int32): (r: string)
    ensures |r| >= 7 && r[..3] == "NT$"
    ensures r[|r| - 3] == '.' && IsDigit(r[|r| - 2]) && IsDigit(r[|r| - 1])
    ensures DotCount(r) == 1
  {
    var sign := if cents < 0 then "-" else "";
    var a := Abs(cents);
    DotsOfShape(NatToDigits(a / 100), [DigitChar(a % 100 / 10), DigitChar(a % 10)]);
    DotCountAppend("NT$" + sign, AmountText(a));
    DotCountAppend("NT$", sign);
    "NT$" + sign + AmountText(a)
  }

  /** One dot in `units + "." + frac`, wherever it is cut after the dot. */
  lemma DotsOfShape(units: string, frac: string)
    requires AllDigits(units) && AllDigits(frac)
    ensures DotCount(units + "." + frac) == 1
  {
    DotCountAppend(units + ".", frac);
    DotCountAppend(units, ".");
    DotCountDigits(units);
    DotCountDigits(frac);
    assert DotCount(".") == 1 by {
      assert "."[..0] == [];
    }
  }

  lemma FracLenOfShape(units: string, frac: string)
    requires AllDigits(units) && AllDigits(frac) && |frac| == 2
    ensures FracLen(units + "." + frac) == 2
  {
    var t := units + "." + frac;
    var t1 := units + "." + [frac[0]];
    var t0 := units + ".";
    assert t[..|t| - 1] == t1;
    assert t1[..|t1| - 1] == t0;
    assert t0 == units + "." + [];
    DotsOfShape(units, []);
    DotsOfShape(units, [frac[0]]);
    assert FracLen(t0) == 0;
    assert FracLen(t1) == 1;
  }

  /** The shape `formatNTD` prints after its prefix: whole units, a dot, two digits. */
  lemma TwoDecimalsShape(units: string, frac: string)
    requires units != [] && AllDigits(units) && AllDigits(frac) && |frac| == 2
    ensures var t := units + "." + frac;
      && (forall i :: 0 <= i < |t| ==> Kept(t[i]))
      && IsDecimal(t) && FracLen(t) == 2 && Digits(t) == units + frac
  {
    var t := units + "." + frac;
    KeptOfShape(units, frac);
    assert IsDecimal(t) by {
      DotsOfShape(units, frac);
      assert IsDigit(t[0]);
    }
    FracLenOfShape(units, frac);
    DigitsOfShape(units, frac);
  }

  lemma KeptOfShape(units: string, frac: string)
    requires AllDigits(units) && AllDigits(frac)
    ensures var t := units + "." + frac; forall i :: 0 <= i < |t| ==> Kept(t[i])
  {
    var u := units + ".";
    assert forall i :: 0 <= i < |u| ==> Kept(u[i]) by {
      assert forall i :: 0 <= i < |units| ==> u[i] == units[i];
    }
    var t := u + frac;
    assert forall i :: 0 <= i < |t| ==> t[i] == if i < |u| then u[i] else frac[i - |u|];
  }

  lemma DigitsOfShape(units: string, frac: string)
    requires AllDigits(units) && AllDigits(frac)
    requires var t := units + "." + frac; forall i :: 0 <= i < |t| ==> Kept(t[i])
    ensures Digits(units + "." + frac) == units + frac
  {
    var u := units + ".";
    assert Digits(u) == units by {
      assert Digits(".") == [] by {
        assert "."[..0] == [];
      }
      DigitsAppend(units, ".");
      DigitsOfDigits(units);
    }
    assert Digits(u + frac) == units + frac by {
      assert forall i :: 0 <= i < |u| ==> Kept(u[i]) by {
        assert forall i :: 0 <= i < |units| ==> u[i] == units[i];
      }
      DigitsAppend(u, frac);
      DigitsOfDigits(frac);
    }
  }

  /** The whitelist drops the prefix and the sign. */
  lemma StripPrefix(sign: string, t: string)
    requires sign == "" || sign == "-"
    ensures Strip("NT$" + sign + t) == Strip(t)
  {
    StripAppend("NT$" + sign, t);
    StripNothingKept("NT$" + sign);
  }

  /** The whitelist keeps the amount and drops the prefix and the sign. */
  lemma StripFormatted(cents: Int32)
    ensures Strip(FormatNTD(cents)) == AmountText(Abs(cents))
  {
    var a := Abs(cents);
    var units := NatToDigits(a / 100);
    var frac := [DigitChar(a % 100 / 10), DigitChar(a % 10)];
    TwoDecimalsShape(units, frac);
    StripKeepsWhitelisted(units + "." + frac);
    StripPrefix(if cents < 0 then "-" else "", AmountText(a));
  }

  /** The printed amount reads back as the same number of cents. */
  lemma AmountTextValue(a: nat)
    ensures var t := AmountText(a);
      (forall i :: 0 <= i < |t| ==> Kept(t[i])) && IsDecimal(t) && DecimalCents(t) == a
  {
    var units := NatToDigits(a / 100);
    var m := a % 100;
    var frac := [DigitChar(m / 10), DigitChar(a % 10)];
    assert a % 10 == m % 10;
    var t := AmountText(a);
    TwoDecimalsShape(units, frac);
    DigitsValueAppend(units, frac);
    TwoDigitsValue(m);
    assert DigitsValue(Digits(t)) == a / 100 * 100 + m == a;
    RoundExact(a);
  }

  /** Two digits read back as the number below 100 they were printed from. */
  lemma TwoDigitsValue(m: nat)
    requires m < 100
    ensures DigitsValue([DigitChar(m / 10), DigitChar(m % 10)]) == m
  {
    var frac := [DigitChar(m / 10), DigitChar(m % 10)];
    assert frac[..1] == [frac[0]];
    assert frac[..1][..0] == [];
    assert DigitsValue(frac[..1]) == m / 10;
  }

  /** What `formatNTD` prints, `parseCents` reads back: the amount itself for
      non-negative amounts, its absolute value for negative ones. */
  lemma FormatThenParse(cents: Int32)
    requires cents > MinInt32
    ensures ParseCents(Some(FormatNTD(cents))) == Ok(Abs(cents))
  {
    var r := FormatNTD(cents);
    assert !Text.IsBlank(r) by {
      assert r[0] == 'N';
    }
    StripFormatted(cents);
    AmountTextValue(Abs(cents));
  }

  /** An amount that is already a whole number of cents is not rounded. */
  lemma RoundExact(a: nat)
    ensures RoundedCents(a, Pow10(2)) == a
  {
    var c := RoundedCents(a, 100);
    assert c * 200 <= a * 200 + 100 < (c + 1) * 200;
  }

  /** Parsing sees only what the whitelist keeps: any text parses like its stripped
      form. */
  lemma ParseLikeStripped(s: string)
    ensures ParseCents(Some(s)) == ParseCents(Some(Strip(s)))
  {
    var t := Strip(s);
    if Text.IsBlank(s) {
      StripNothingKept(s);
    }
    StripKeepsWhitelisted(t);
    if t != [] {
      assert !Text.IsJavaWhitespace(t[0]);
    }
  }

  /** The prefix and a thousands separator go, the digit groups stay: "NT$1,200" parses
      like "1200". */
  lemma ParseGrouped(a: string, b: string)
    requires AllDigits(a) && AllDigits(b)
    ensures ParseCents(Some("NT$" + a + "," + b)) == ParseCents(Some(a + b))
  {
    var x := "NT$" + a;
    var y := x + ",";
    assert Strip(x) == a by {
      StripAppend("NT$", a);
      StripNothingKept("NT$");
      StripKeepsWhitelisted(a);
    }
    assert Strip(y) == a by {
      StripAppend(x, ",");
      StripNothingKept(",");
    }
    assert Strip(y + b) == a + b by {
      StripAppend(y, b);
      StripKeepsWhitelisted(b);
    }
    ParseLikeStripped(y + b);
    ParseLikeStripped(a + b);
    assert AllDigits(a + b) by {
      assert forall i :: 0 <= i < |a + b| ==> (a + b)[i] == if i < |a| then a[i] else b[i - |a|];
    }
    StripKeepsWhitelisted(a + b);
  }

  /** Text with nothing left after stripping, such as "NT$", parses to 0. */
  lemma ParsePrefixOnly()
    ensures ParseCents(Some("NT$")) == Ok(0)
  {
    StripNothingKept("NT$");
  }

  /** Two dots between digit groups, as in "1.2.3", are a NumberFormatException. */
  lemma ParseTwoDots(a: string, b: string, c: string)
    requires AllDigits(a) && AllDigits(b) && AllDigits(c)
    ensures ParseCents(Some(a + "." + b + "." + c)) == Err(NumberFormat)
  {
    var u := a + "." + b;
    var v := "." + c;
    var t := u + v;
    assert t == a + "." + b + "." + c;
    assert DotCount(u) == 1 by {
      DotsOfShape(a, b);
    }
    assert DotCount(v) == 1 by {
      DotsOfShape([], c);
      assert [] + "." + c == v;
    }
    DotCountAppend(u, v);
    assert forall i :: 0 <= i < |t| ==> Kept(t[i]) by {
      assert forall i :: 0 <= i < |t| ==>
        t[i] == if i < |a| then a[i] else if i == |a| then '.' else if i < |u| then b[i - |a| - 1]
                else if i == |u| then '.' else c[i - |u| - 1];
    }
    StripKeepsWhitelisted(t);
    ParseLikeStripped(t);
  }

  /** Dots with no digit, as in ".", are a NumberFormatException. */
  lemma ParseDotsOnly(t: string)
    requires t != [] && forall i :: 0 <= i < |t| ==> t[i] == '.'
    ensures ParseCents(Some(t)) == Err(NumberFormat)
  {
    StripKeepsWhitelisted(t);
    ParseLikeStripped(t);
    assert !HasDigit(t);
  }
}
