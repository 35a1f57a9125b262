/** Python's `int(text, base)` for the two bases the modelled code uses:
    `int(s)` (base 10) in the validators and `int(s, 16)` in the colour helpers.
    Leading and trailing whitespace (`IsIntSpace`) is ignored, one sign is allowed, base 16
    allows a `0x` prefix, and single underscores may separate digits. */
module PyInt {
  import opened Wrappers
  import opened PyText

  datatype Base = Decimal | Hex

  function Radix(b: Base): nat {
    if b == Decimal then 10 else 16
  }

  predicate IsDigitIn(c: char, b: Base) {
    IsAsciiDigit(c) || (b == Hex && ('a' <= c <= 'f' || 'A' <= c <= 'F'))
  }

  function DigitValue(c: char, b: Base): (v: nat)
    requires IsDigitIn(c, b)
    ensures v < Radix(b)
  {
    if IsAsciiDigit(c) then c as int - '0' as int
    else if 'a' <= c <= 'f' then c as int - 'a' as int + 10
    else c as int - 'A' as int + 10
  }

  /** A run of digits in which every underscore sits between two digits. */
  predicate WellFormedDigits(d: string, b: Base) {
    |d| > 0 && IsDigitIn(d[0], b) && forall i | 0 <= i < |d| :: DigitOrSeparator(d, i, b)
  }

  /** Position `i` of `d` holds a digit, or an underscore followed by a digit. */
  predicate DigitOrSeparator(d: string, i: nat, b: Base)
    requires i < |d|
  {
    IsDigitIn(d[i], b) || (d[i] == '_' && i + 1 < |d| && IsDigitIn(d[i + 1], b))
  }

  lemma WellFormedChars(d: string, b: Base)
    requires WellFormedDigits(d, b)
    ensures forall i :: 0 <= i < |d| ==> IsDigitIn(d[i], b) || d[i] == '_'
  {
    forall i | 0 <= i < |d| ensures IsDigitIn(d[i], b) || d[i] == '_' {
      assert DigitOrSeparator(d, i, b);
    }
  }

  function DropUnderscores(d: string): (r: string)
    ensures forall i :: 0 <= i < |r| ==> r[i] != '_'
    ensures (forall i :: 0 <= i < |d| ==> d[i] != '_') ==> r == d
  {
    if d == [] then []
    else if d[|d| - 1] == '_' then DropUnderscores(d[..|d| - 1])
    else DropUnderscores(d[..|d| - 1]) + [d[|d| - 1]]
  }

  lemma {:induction false} DropUnderscoresDigits(d: string, b: Base)
    requires forall i :: 0 <= i < |d| ==> IsDigitIn(d[i], b) || d[i] == '_'
    ensures forall i :: 0 <= i < |DropUnderscores(d)| ==> IsDigitIn(DropUnderscores(d)[i], b)
  {
    if d != [] {
      DropUnderscoresDigits(d[..|d| - 1], b);
    }
  }

  /** The value of a string of digits, most significant first. */
  function Horner(ds: string, b: Base): nat
    requires forall i :: 0 <= i < |ds| ==> IsDigitIn(ds[i], b)
  {
    if ds == [] then 0
    else Horner(ds[..|ds| - 1], b) * Radix(b) + DigitValue(ds[|ds| - 1], b)
  }

  /** The digits after an optional `0x`/`0X` prefix (base 16 only), which may be followed by one underscore. */
  function AfterPrefix(body: string, b: Base): string {
    if b == Hex && |body| >= 2 && body[0] == '0' && (body[1] == 'x' || body[1] == 'X') then
      if |body| >= 3 && body[2] == '_' then body[3..] else body[2..]
    else body
  }

  function Magnitude(body: string, b: Base): Option<nat> {
    var d := AfterPrefix(body, b);
    if WellFormedDigits(d, b) then
      WellFormedChars(d, b);
      DropUnderscoresDigits(d, b);
      Some(Horner(DropUnderscores(d), b))
    else None
  }

  /** The value of already stripped text: an optional sign, then the magnitude. */
  function SignedValue(t: string, b: Base): Option<int> {
    if |t| > 0 && (t[0] == '-' || t[0] == '+') then
      match Magnitude(t[1..], b)
      case None => None
      case Some(m) => Some(if t[0] == '-' then -(m as int) else m as int)
    else
      match Magnitude(t, b)
      case None => None
      case Some(m) => Some(m)
  }

  /** `int(s, base)`: `None` where Python raises `ValueError`. */
  function ParseInt(s: string, b: Base): Option<int> {
    SignedValue(Strip(s, IntBlanks), b)
  }

  lemma {:induction false} HornerDigits(n: nat)
    ensures forall i :: 0 <= i < |Digits(n)| ==> IsDigitIn(Digits(n)[i], Decimal)
    ensures Horner(Digits(n), Decimal) == n
    decreases n
  {
    if n >= 10 {
      HornerDigits(n / 10);
      var ds := Digits(n);
      assert ds[..|ds| - 1] == Digits(n / 10);
    }
  }

  /** The digits printed for `m` are read back as `m`. */
  lemma DigitsMagnitude(m: nat)
    ensures Magnitude(Digits(m), Decimal) == Some(m)
  {
    var ds := Digits(m);
    HornerDigits(m);
    assert AfterPrefix(ds, Decimal) == ds;
    assert DropUnderscores(ds) == ds;
    assert WellFormedDigits(ds, Decimal);
  }

  /** `int(str(n)) == n`: reading back a printed integer gives the integer. */
  lemma DecimalRoundTrip(n: int)
    ensures ParseInt(DecimalString(n), Decimal) == Some(n)
  {
    var s := DecimalString(n);
    StripUnchanged(s, IntBlanks);
    if n >= 0 {
      DigitsMagnitude(n);
      assert !(s[0] == '-' || s[0] == '+');
    } else {
      DigitsMagnitude(-n);
      assert s[1..] == Digits(-n);
    }
  }

  /** A non-empty string of ASCII digits is read as its digit value. */
  lemma DigitStringParses(s: string)
    requires IsDigitString(s)
    ensures forall i :: 0 <= i < |s| ==> IsDigitIn(s[i], Decimal)
    ensures ParseInt(s, Decimal) == Some(Horner(s, Decimal))
  {
    assert forall i :: 0 <= i < |s| ==> IsDigitIn(s[i], Decimal);
    assert !IsIntSpace(s[0]) && !IsIntSpace(s[|s| - 1]);
    StripUnchanged(s, IntBlanks);
    assert forall i | 0 <= i < |s| :: DigitOrSeparator(s, i, Decimal);
    assert AfterPrefix(s, Decimal) == s;
    assert forall i :: 0 <= i < |s| ==> s[i] != '_';
    assert DropUnderscores(s) == s;
    assert Magnitude(s, Decimal) == Some(Horner(s, Decimal));
    assert !(s[0] == '-' || s[0] == '+');
  }

  /** Python's `int()` raises on text in which no digit occurs. */
  lemma ParseNeedsDigit(s: string, b: Base)
    requires forall k :: 0 <= k < |s| ==> !IsAsciiDigit(s[k])
    requires b == Decimal
    ensures ParseInt(s, b) == None
  {
    var t := Strip(s, IntBlanks);
    assert forall k :: 0 <= k < |t| ==> !IsDigitIn(t[k], b);
    if |t| > 0 {
      assert !WellFormedDigits(t[1..], b) by {
        if |t[1..]| > 0 { assert t[1..][0] == t[1]; }
      }
    }
  }

  /** `int()` raises on text that starts with one of the separators U+001C..U+001F:
      `isspace` accepts them, but `int()` does not skip them. */
  lemma ParseRejectsSeparator(s: string, b: Base)
    requires s != [] && 0x1C <= s[0] as int <= 0x1F
    ensures ParseInt(s, b) == None
  {
    assert LeadingSpace(s, IntBlanks) == 0;
    var t := Strip(s, IntBlanks);
    assert t != [];
    assert t[0] == s[0];
    assert AfterPrefix(t, b) == t;
    assert !IsDigitIn(t[0], b);
  }
}
