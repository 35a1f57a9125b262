/** `MetaData.__determine_suitable_units` and `MetaData.suitable_units_display` of
    module/stdio.py: a byte count shown in the largest of B, KB, MB, GB, TB, PB that
    keeps the number at least 1, to two decimals. The source divides floats; the
    model divides exactly, which agrees with the floats for counts below 2^53
    (dividing by 1024 is exact there). */
module Units {
  import opened Wrappers
  import opened PyText
  import opened PyInt

  const UNITS: seq<string> := ["B", "KB", "MB", "GB", "TB", "PB"]

  function Pow1024(k: nat): (p: nat)
    ensures p >= 1
  {
    if k == 0 then 1 else 1024 * Pow1024(k - 1)
  }

  /** `number / 1024 ** k`, exactly. */
  function Scaled(number: nat, k: nat): real {
    number as real / Pow1024(k) as real
  }

  /** The unit the loop stops at: the first `k` below 5 with `number < 1024^(k+1)`, or 5. */
  function ChosenIndex(number: nat, k: nat := 0): (r: nat)
    requires k <= 5
    ensures k <= r <= 5
    decreases 5 - k
  {
    if k == 5 || number < Pow1024(k + 1) then k else ChosenIndex(number, k + 1)
  }

  /** `round(x, 2)` as `'{:.2f}'` does it, in hundredths: to nearest, ties to even. */
  function Hundredths(x: real): (h: int)
    ensures (h as real) - 0.5 <= x * 100.0 <= (h as real) + 0.5
  {
    var y := x * 100.0;
    var f := y.Floor;
    var frac := y - f as real;
    if frac > 0.5 then f + 1
    else if frac < 0.5 then f
    else if f % 2 == 0 then f else f + 1
  }

  /** `s` shows `h` hundredths as `'{:.2f}'` does: digits, a point third from the end,
      and two more digits, which read without the point are `h`. */
  predicate ShowsHundredths(s: string, h: int) {
    |s| >= 4 && s[|s| - 3] == '.'
    && (forall i :: 0 <= i < |s| && i != |s| - 3 ==> IsAsciiDigit(s[i]))
    && ParseInt(s[..|s| - 3] + s[|s| - 2..], Decimal) == Some(h)
  }

  /** `'{:.2f}'.format(x)` for `x >= 0`: the value rounded to hundredths, with two
      digits after the point. */
  function Format2(x: real): (s: string)
    requires x >= 0.0
    ensures ShowsHundredths(s, Hundredths(x))
  {
    var h := Hundredths(x);
    assert h >= 0;
    CentsShows(h);
    CentsText(h)
  }

  /** `h` hundredths as text: `h / 100` in decimal, a point, and `h % 100` in two digits. */
  function CentsText(h: nat): string {
    DecimalString(h / 100) + "." + [DigitChar(h % 100 / 10), DigitChar(h % 100 % 10)]
  }

  lemma CentsShows(h: nat)
    ensures ShowsHundredths(CentsText(h), h)
  {
    CentsShape(h);
    CentsValue(h);
  }

  /** The point of `CentsText(h)` is third from the end and every other character is a digit. */
  lemma CentsShape(h: nat)
    ensures |CentsText(h)| >= 4 && CentsText(h)[|CentsText(h)| - 3] == '.'
    ensures forall i :: 0 <= i < |CentsText(h)| && i != |CentsText(h)| - 3 ==> IsAsciiDigit(CentsText(h)[i])
  {
    var d := DecimalString(h / 100);
    var s := CentsText(h);
    assert IsDigitString(d);
    forall i | 0 <= i < |s| && i != |s| - 3 ensures IsAsciiDigit(s[i]) {
      if i < |d| { assert s[i] == d[i]; }
    }
  }

  /** Without its point, `CentsText(h)` reads as `h`. */
  lemma CentsValue(h: nat)
    ensures |CentsText(h)| >= 4
    ensures ParseInt(CentsText(h)[..|CentsText(h)| - 3] + CentsText(h)[|CentsText(h)| - 2..], Decimal) == Some(h)
  {
    var whole, cents := h / 100, h % 100;
    var s := CentsText(h);
    var t := CentsDigits(whole, cents);
    assert s[..|s| - 3] + s[|s| - 2..] == t by {
      var d := DecimalString(whole);
      assert s[..|s| - 3] == d;
      assert s[|s| - 2..] == [DigitChar(cents / 10), DigitChar(cents % 10)];
    }
    CentsDigitsValue(whole, cents);
    DigitStringParses(t);
    assert whole * 100 + cents == h;
  }

  /** `Cents(whole, cents)` without its point. */
  function CentsDigits(whole: nat, cents: nat): (t: string)
    requires cents < 100
    ensures IsDigitString(t)
  {
    Digits(whole) + [DigitChar(cents / 10), DigitChar(cents % 10)]
  }

  lemma CentsDigitsValue(whole: nat, cents: nat)
    requires cents < 100
    ensures Horner(CentsDigits(whole, cents), Decimal) == whole * 100 + cents
  {
    var d := Digits(whole);
    var c1, c2 := DigitChar(cents / 10), DigitChar(cents % 10);
    HornerDigits(whole);
    HornerSnoc(d, c1);
    assert d + [c1, c2] == (d + [c1]) + [c2];
    HornerSnoc(d + [c1], c2);
    assert (whole * 10 + cents / 10) * 10 == whole * 100 + cents / 10 * 10;
  }

  /** Appending a digit multiplies the value by ten and adds the digit. */
  lemma HornerSnoc(ds: string, c: char)
    requires IsDigitString(ds) && IsAsciiDigit(c)
    ensures IsDigitString(ds + [c])
    ensures Horner(ds + [c], Decimal) == Horner(ds, Decimal) * 10 + DigitValue(c, Decimal)
  {
    assert (ds + [c])[..|ds|] == ds;
  }

  /** What `__determine_suitable_units` returns: with a known unit, the number rounded
      to two decimals as a float and that unit; otherwise the formatted text and the
      chosen unit. */
  datatype Amount = Explicit(value: real, unit: string) | Chosen(text: string, unit: string)

  function IndexIn(units: seq<string>, u: string): (i: nat)
    requires u in units
    ensures i < |units| && units[i] == u
    ensures forall j :: 0 <= j < i ==> units[j] != u
  {
    if units[0] == u then 0 else 1 + IndexIn(units[1..], u)
  }

  lemma ScaledStep(number: nat, i: nat)
    ensures Scaled(number, i) / 1024.0 == Scaled(number, i + 1)
    ensures Scaled(number, i) >= 1024.0 <==> number >= Pow1024(i + 1)
  {
    var p := Pow1024(i) as real;
    assert Pow1024(i + 1) as real == 1024.0 * p;
    DivideAgain(number as real, p);
    CompareScaled(number as real, p);
  }

  lemma DivideAgain(n: real, p: real)
    requires p > 0.0
    ensures n / p / 1024.0 == n / (1024.0 * p)
  {
  }

  lemma CompareScaled(n: real, p: real)
    requires p > 0.0
    ensures n / p >= 1024.0 <==> n >= 1024.0 * p
  {
    var s := n / p;
    assert s * p == n;
    assert s * p - 1024.0 * p == (s - 1024.0) * p;
  }

  method DetermineSuitableUnits(number: nat, unit: Option<string>) returns (r: Amount)
    ensures unit.Some? && unit.value in UNITS ==>
      r == Explicit(Hundredths(Scaled(number, IndexIn(UNITS, unit.value))) as real / 100.0, unit.value)
    ensures !(unit.Some? && unit.value in UNITS) ==>
      r == Chosen(Format2(Scaled(number, ChosenIndex(number))), UNITS[ChosenIndex(number)])
  {
    if unit.Some? && unit.value in UNITS {
      var index := IndexIn(UNITS, unit.value);
      var value := Scaled(number, index);
      return Explicit(Hundredths(value) as real / 100.0, unit.value);
    }
    var values: seq<real> := [number as real];
    var i := 0;
    while i < |UNITS| - 1
      invariant |values| == i + 1 && i <= |UNITS| - 1
      invariant forall j :: 0 <= j < |values| ==> values[j] == Scaled(number, j)
      invariant ChosenIndex(number) == ChosenIndex(number, i)
    {
      ScaledStep(number, i);
      if values[i] >= 1024.0 {
        values := values + [values[i] / 1024.0];
      } else {
        break;
      }
      i := i + 1;
    }
    var k := |values| - 1;
    assert ChosenIndex(number) == k;
    assert values[k] == Scaled(number, k);
    return Chosen(Format2(values[k]), UNITS[k]);
  }

  /** `suitable_units_display`: the number followed by its unit. */
  method SuitableUnitsDisplay(number: nat) returns (s: string)
    ensures s == Format2(Scaled(number, ChosenIndex(number))) + UNITS[ChosenIndex(number)]
  {
    var result := DetermineSuitableUnits(number, None);
    s := result.text + result.unit;
  }

  /** The chosen unit keeps the number at least 1 (for a non-zero count) and below
      1024, except that anything of 1024 TB or more is shown in PB. */
  lemma ChosenBounds(number: nat)
    ensures var k := ChosenIndex(number); (k == 0 || number >= Pow1024(k)) && (k == 5 || number < Pow1024(k + 1))
  {
    FirstFitBounds(number, 0);
  }

  lemma {:induction false} FirstFitBounds(number: nat, k: nat)
    requires k <= 5 && (k == 0 || number >= Pow1024(k))
    ensures var r := ChosenIndex(number, k); (r == 0 || number >= Pow1024(r)) && (r == 5 || number < Pow1024(r + 1))
    decreases 5 - k
  {
    if !(k == 5 || number < Pow1024(k + 1)) {
      FirstFitBounds(number, k + 1);
    }
  }

  /** Only one unit satisfies those bounds, so they characterise the choice. */
  lemma ChosenUnique(number: nat, k: nat)
    requires k <= 5 && (k == 0 || number >= Pow1024(k)) && (k == 5 || number < Pow1024(k + 1))
    ensures ChosenIndex(number) == k
  {
    ChosenBounds(number);
    var c := ChosenIndex(number);
    if c < k {
      PowMono(c + 1, k);
    } else if k < c {
      PowMono(k + 1, c);
    }
  }

  lemma {:induction false} PowMono(a: nat, b: nat)
    requires a <= b
    ensures Pow1024(a) <= Pow1024(b)
    decreases b
  {
    if a < b {
      PowMono(a, b - 1);
    }
  }

  /** Counts below 1024 are shown in bytes with `.00`. */
  lemma SmallInBytes(number: nat)
    requires number < 1024
    ensures ChosenIndex(number) == 0
    ensures Format2(Scaled(number, 0)) + UNITS[0] == DecimalString(number) + ".00B"
  {
    assert Scaled(number, 0) == number as real;
    assert (number as real * 100.0).Floor == number * 100;
    assert Hundredths(number as real) == number * 100;
    assert (number * 100) / 100 == number && (number * 100) % 100 == 0;
  }

  /** Rounding can show the chosen unit's limit: one byte short of 1 MB is shown in
      KB as `1024.00KB`. */
  lemma ShowsLimit()
    ensures ChosenIndex(1048575) == 1
    ensures Format2(Scaled(1048575, 1)) + UNITS[1] == "1024.00KB"
  {
    assert Pow1024(1) == 1024 && Pow1024(2) == 1048576;
    FormatsAs1024();
  }

  lemma FormatsAs1024()
    ensures Format2(Scaled(1048575, 1)) == "1024.00"
  {
    NearlyOneMegabyte();
    assert 102400 / 100 == 1024 && 102400 % 100 == 0;
    assert DecimalString(1024) == "1024" by {
      assert Digits(10) == "10";
      assert Digits(102) == Digits(10) + "2";
      assert Digits(1024) == Digits(102) + "4";
    }
  }

  lemma NearlyOneMegabyte()
    ensures Hundredths(Scaled(1048575, 1)) == 102400
  {
    assert Pow1024(1) == 1024;
    assert Scaled(1048575, 1) * 100.0 == 102399.90234375;
    assert (102399.90234375).Floor == 102399;
  }
}
