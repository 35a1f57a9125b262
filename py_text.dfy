/** The behaviour of Python's `str` that the modelled code relies on:
    `isspace`, `isdigit`, `strip`, `in` on strings and `str(int)`. */
module PyText {

  /** `str.isspace()`: the characters that `str.strip()` removes. */
  predicate IsSpace(c: char) {
    var n := c as int;
    n == 0x20 || 0x09 <= n <= 0x0D || 0x1C <= n <= 0x1F || n == 0x85 || n == 0xA0
    || n == 0x1680 || 0x2000 <= n <= 0x200A || n == 0x2028 || n == 0x2029
    || n == 0x202F || n == 0x205F || n == 0x3000
  }

  /** The characters `int()` skips around its digits. CPython turns whitespace above
      U+007F into a space and then skips only ASCII space, tab, newline, vertical tab,
      form feed and carriage return, so the separators U+001C..U+001F, which
      `isspace` accepts, make `int()` raise. */
  predicate IsIntSpace(c: char) {
    IsSpace(c) && !(0x1C <= c as int <= 0x1F)
  }

  /** Which characters count as surrounding whitespace: those of `str.strip()` or
      those of `int()`. */
  datatype Blanks = StrBlanks | IntBlanks

  predicate IsBlank(c: char, w: Blanks) {
    if w == StrBlanks then IsSpace(c) else IsIntSpace(c)
  }

  predicate IsAsciiDigit(c: char) {
    '0' <= c <= '9'
  }

  /** `str.isdigit()` restricted to ASCII digits: true for a non-empty string of digits. */
  predicate IsDigitString(s: string) {
    |s| > 0 && forall i :: 0 <= i < |s| ==> IsAsciiDigit(s[i])
  }

  /** The number of whitespace characters at the start of `s`. */
  function LeadingSpace(s: string, w: Blanks): (n: nat)
    ensures n <= |s|
    ensures forall k :: 0 <= k < n ==> IsBlank(s[k], w)
    ensures n < |s| ==> !IsBlank(s[n], w)
  {
    if |s| > 0 && IsBlank(s[0], w) then 1 + LeadingSpace(s[1..], w) else 0
  }

  /** The number of whitespace characters at the end of `s`. */
  function TrailingSpace(s: string, w: Blanks): (n: nat)
    ensures n <= |s|
    ensures forall k :: |s| - n <= k < |s| ==> IsBlank(s[k], w)
    ensures n < |s| ==> !IsBlank(s[|s| - 1 - n], w)
  {
    if |s| > 0 && IsBlank(s[|s| - 1], w) then 1 + TrailingSpace(s[..|s| - 1], w) else 0
  }

  /** `str.strip()` (with `StrBlanks`), or the trimming `int()` does before it reads
      digits (with `IntBlanks`): `s` without its leading and trailing whitespace. */
  function Strip(s: string, w: Blanks): (t: string)
    ensures LeadingSpace(s, w) + |t| <= |s|
    ensures t == s[LeadingSpace(s, w)..LeadingSpace(s, w) + |t|]
    ensures t != [] ==> !IsBlank(t[0], w) && !IsBlank(t[|t| - 1], w)
    ensures t == [] ==> forall k :: 0 <= k < |s| ==> IsBlank(s[k], w)
    ensures forall k :: LeadingSpace(s, w) + |t| <= k < |s| ==> IsBlank(s[k], w)
  {
    var i := LeadingSpace(s, w);
    var rest := s[i..];
    rest[..|rest| - TrailingSpace(rest, w)]
  }

  /** Stripping a string that starts and ends with non-whitespace leaves it alone. */
  lemma StripUnchanged(s: string, w: Blanks)
    requires s != [] ==> !IsBlank(s[0], w) && !IsBlank(s[|s| - 1], w)
    ensures Strip(s, w) == s
  {
    if s != [] {
      assert LeadingSpace(s, w) == 0;
      assert s[0..] == s;
      assert TrailingSpace(s, w) == 0;
    }
  }

  /** `strip` is idempotent. */
  lemma StripIdempotent(s: string, w: Blanks)
    ensures Strip(Strip(s, w), w) == Strip(s, w)
  {
    StripUnchanged(Strip(s, w), w);
  }

  /** `int()` trims less than `strip()`: the file separator U+001C survives its trim. */
  lemma IntKeepsSeparators()
    ensures Strip("\U{1C}80", StrBlanks) == "80"
    ensures Strip("\U{1C}80", IntBlanks) == "\U{1C}80"
  {
    var s := "\U{1C}80";
    assert LeadingSpace(s[1..], StrBlanks) == 0;
    assert LeadingSpace(s, StrBlanks) == 1;
    assert TrailingSpace(s[1..], StrBlanks) == 0;
    assert s[1..][..2] == "80";
    StripUnchanged(s, IntBlanks);
  }

  /** `pat` occurs in `s` starting at index `i`. */
  predicate OccursAt(s: string, pat: string, i: nat) {
    i + |pat| <= |s| && s[i..i + |pat|] == pat
  }

  /** Python's `pat in s` for strings. */
  function Contains(s: string, pat: string): (r: bool)
    ensures r <==> exists i: nat :: OccursAt(s, pat, i)
    decreases |s|
  {
    if |s| < |pat| then false
    else if s[..|pat|] == pat then assert OccursAt(s, pat, 0); true
    else
      var r := Contains(s[1..], pat);
      assert forall i: nat :: OccursAt(s[1..], pat, i) <==> OccursAt(s, pat, i + 1) by {
        forall i: nat ensures OccursAt(s[1..], pat, i) <==> OccursAt(s, pat, i + 1) {
          if i + 1 + |pat| <= |s| {
            assert s[1..][i..i + |pat|] == s[i + 1..i + 1 + |pat|];
          }
        }
      }
      assert !OccursAt(s, pat, 0);
      assert (exists i: nat :: OccursAt(s, pat, i)) ==> exists i: nat :: OccursAt(s[1..], pat, i) by {
        if exists i: nat :: OccursAt(s, pat, i) {
          var i: nat :| OccursAt(s, pat, i);
          assert i != 0;
          assert OccursAt(s[1..], pat, i - 1);
        }
      }
      r
  }

  /** `s.startswith(p)`. */
  predicate StartsWith(s: string, p: string) {
    |p| <= |s| && s[..|p|] == p
  }

  function DigitChar(d: nat): (c: char)
    requires d < 10
    ensures IsAsciiDigit(c) && c as int - '0' as int == d
  {
    (d + '0' as int) as char
  }

  /** The decimal digits of `n`, most significant first, without leading zeros. */
  function Digits(n: nat): (s: string)
    ensures IsDigitString(s)
    ensures s[0] == '0' ==> n == 0
    decreases n
  {
    if n < 10 then [DigitChar(n)] else Digits(n / 10) + [DigitChar(n % 10)]
  }

  /** `str(n)` for a Python int. */
  function DecimalString(n: int): (s: string)
    ensures s != [] && !IsSpace(s[0]) && !IsSpace(s[|s| - 1])
    ensures !IsIntSpace(s[0]) && !IsIntSpace(s[|s| - 1])
    ensures n >= 0 <==> IsDigitString(s)
    ensures n < 0 ==> s[0] == '-' && IsDigitString(s[1..])
  {
    if n >= 0 then Digits(n) else "-" + Digits(-n)
  }
}
