/** `GradientColor` of module/enums.py: stretching a palette to the length of a
    text, colouring a text one character at a time, and building a palette by
    linear interpolation between two hex colours. */
module Gradient {
  import opened Wrappers
  import opened PyText
  import opened PyInt

  // ---------------------------------------------------------------------------
  // Palette extension (`__extend_gradient_colors`)

  /** Position `j` of the repeating tail that the extension appends after the first
      copy of `colors`: `colors[-2::-1]` (all but the last colour, reversed) followed
      by `colors[:-1]` (all but the last colour, forward), over and over. */
  function Cycle(colors: seq<string>, j: nat): string
    requires |colors| >= 2
    decreases j
  {
    var m := |colors| - 1;
    if j >= 2 * m then Cycle(colors, j - 2 * m)
    else if j < m then colors[m - 1 - j]
    else colors[j - m]
  }

  /** The colour the extended palette has at position `i`. A one-colour palette
      repeats its colour, which the loop as written never does (see `ExtendRound`). */
  function ExtendedAt(colors: seq<string>, i: nat): string
    requires colors != []
  {
    if i < |colors| then colors[i]
    else if |colors| == 1 then colors[0]
    else Cycle(colors, i - |colors|)
  }

  /** `off` colours of the tail are whole back-and-forth rounds. */
  predicate Aligned(colors: seq<string>, off: nat)
    requires |colors| >= 2
    decreases off
  {
    off == 0 || (off >= 2 * (|colors| - 1) && Aligned(colors, off - 2 * (|colors| - 1)))
  }

  lemma {:induction false} CycleSkipsRounds(colors: seq<string>, off: nat, j: nat)
    requires |colors| >= 2 && Aligned(colors, off)
    ensures Cycle(colors, off + j) == Cycle(colors, j)
    decreases off
  {
    if off > 0 {
      CycleSkipsRounds(colors, off - 2 * (|colors| - 1), j);
    }
  }

  /** All but the last colour, `colors[:-1]`. */
  function AllButLast(colors: seq<string>): seq<string> {
    if colors == [] then [] else colors[..|colors| - 1]
  }

  /** All but the last colour in reverse, `colors[-2::-1]`. */
  function ReversedAllButLast(colors: seq<string>): (r: seq<string>)
    ensures |r| == |AllButLast(colors)|
  {
    var m := |AllButLast(colors)|;
    seq(m, j requires 0 <= j < m => colors[m - 1 - j])
  }

  /** One pass of the loop of `__extend_gradient_colors` as written: the reversed
      part, then, if the list is still short, the forward part. */
  function ExtendRound(extended: seq<string>, colors: seq<string>, targetLength: nat): (r: seq<string>)
    ensures |colors| >= 2 ==> |r| > |extended|
  {
    var e := extended + ReversedAllButLast(colors);
    if |e| < targetLength then e + AllButLast(colors) else e
  }

  /** With fewer than two colours a pass appends nothing, so a list shorter than the
      target stays shorter and the loop as written never ends. */
  lemma ShortPaletteStalls(extended: seq<string>, colors: seq<string>, targetLength: nat)
    requires |colors| <= 1
    ensures ExtendRound(extended, colors, targetLength) == extended
  {
    assert AllButLast(colors) == [];
    assert extended + [] == extended;
  }

  /** A one-colour palette and a two-character text: the first pass leaves the list
      as it was. */
  lemma OneColourStalls()
    ensures ExtendRound(["#ffffff"], ["#ffffff"], 2) == ["#ffffff"]
    ensures |ExtendRound(["#ffffff"], ["#ffffff"], 2)| < 2
  {
    ShortPaletteStalls(["#ffffff"], ["#ffffff"], 2);
  }

  /** `__extend_gradient_colors`: `colors` is repeated (first as is, then by
      alternating reversed and forward copies of all but its last colour) until
      `targetLength` colours are there. A one-colour palette is repeated, where the
      loop as written never ends; an empty palette has no colour to give. */
  method ExtendGradientColors(colors: seq<string>, targetLength: nat) returns (extended: seq<string>)
    requires colors != [] || targetLength == 0
    ensures |extended| == targetLength
    ensures forall i :: 0 <= i < targetLength ==> extended[i] == ExtendedAt(colors, i)
  {
    if |colors| == 1 && targetLength > 1 {
      extended := seq(targetLength, _ => colors[0]);
      return;
    }
    var extendedColors := colors;
    var n := |colors|;
    ghost var off: nat := 0;
    while |extendedColors| < targetLength
      invariant n <= |extendedColors|
      invariant |colors| < 2 ==> extendedColors == colors && |colors| >= targetLength
      invariant |colors| >= 2 ==> Aligned(colors, off)
      invariant |extendedColors| == n + off
        || (|extendedColors| == n + off + (n - 1) && |extendedColors| >= targetLength)
      invariant forall i :: 0 <= i < |extendedColors| ==> extendedColors[i] == ExtendedAt(colors, i)
      decreases targetLength - |extendedColors|
    {
      var m := n - 1;
      var base := |extendedColors|;
      var backward := seq(m, j requires 0 <= j < m => colors[m - 1 - j]);
      extendedColors := extendedColors + backward;
      forall p | base <= p < base + m ensures extendedColors[p] == ExtendedAt(colors, p) {
        CycleSkipsRounds(colors, off, p - base);
      }
      if |extendedColors| < targetLength {
        extendedColors := extendedColors + colors[..m];
        forall p | base + m <= p < base + 2 * m ensures extendedColors[p] == ExtendedAt(colors, p) {
          CycleSkipsRounds(colors, off, p - base);
        }
        off := off + 2 * m;
      }
    }
    extended := extendedColors[..targetLength];
  }

  /** The extended palette begins with the palette itself and only uses its colours. */
  lemma ExtendedFromPalette(colors: seq<string>, i: nat)
    requires colors != []
    ensures i < |colors| ==> ExtendedAt(colors, i) == colors[i]
    ensures ExtendedAt(colors, i) in colors
  {
    if i >= |colors| && |colors| >= 2 {
      CycleInPrefix(colors, i - |colors|);
    }
  }

  lemma {:induction false} CycleInPrefix(colors: seq<string>, j: nat)
    requires |colors| >= 2
    ensures Cycle(colors, j) in colors[..|colors| - 1]
    decreases j
  {
    var m := |colors| - 1;
    if j >= 2 * m {
      CycleInPrefix(colors, j - 2 * m);
    } else if j < m {
      assert colors[m - 1 - j] == colors[..m][m - 1 - j];
    } else {
      assert colors[j - m] == colors[..m][j - m];
    }
  }

  /** What the loop as written produces after the first copy: the last colour of the
      palette never comes back, the tail repeats every `2 * (|colors| - 1)` colours,
      and each turning colour appears twice in a row (`... b, a, a, b, ...`). */
  lemma ExtensionShape(colors: seq<string>, i: nat)
    requires |colors| >= 2 && i >= |colors|
    ensures ExtendedAt(colors, i) in colors[..|colors| - 1]
    ensures ExtendedAt(colors, i + 2 * (|colors| - 1)) == ExtendedAt(colors, i)
    ensures ExtendedAt(colors, 2 * |colors| - 2) == ExtendedAt(colors, 2 * |colors| - 1) == colors[0]
  {
    CycleInPrefix(colors, i - |colors|);
    assert Aligned(colors, 0);
    assert Aligned(colors, 2 * (|colors| - 1));
    CycleSkipsRounds(colors, 2 * (|colors| - 1), i - |colors|);
  }

  // ---------------------------------------------------------------------------
  // Gradient text (`gen_gradient_text`)

  /** The rich markup for one character: `[c]ch[/c]`. */
  function Segment(color: string, ch: char): string {
    "[" + color + "]" + [ch] + "[/" + color + "]"
  }

  /** The markup of `text` where character `i` is coloured `colors[i]`. */
  function Markup(text: string, colors: seq<string>): string
    requires |colors| >= |text|
  {
    if text == [] then "" else Markup(text[..|text| - 1], colors) + Segment(colors[|text| - 1], text[|text| - 1])
  }

  /** `gen_gradient_text`: each character in its own colour; the palette is extended
      first when the text is longer than it. */
  method GenGradientText(text: string, gradientColor: seq<string>) returns (result: string)
    requires gradientColor != [] || text == []
    ensures result == Markup(text, seq(|text|, i requires 0 <= i < |text| => ExtendedAt(gradientColor, i)))
  {
    var textLen := |text|;
    var colors := gradientColor;
    if textLen > |gradientColor| {
      colors := ExtendGradientColors(gradientColor, textLen);
    }
    ghost var palette := seq(textLen, i requires 0 <= i < textLen => ExtendedAt(gradientColor, i));
    assert forall i :: 0 <= i < textLen ==> colors[i] == palette[i];
    result := "";
    for i := 0 to textLen
      invariant result == Markup(text[..i], palette)
    {
      result := result + Segment(colors[i], text[i]);
      assert text[..i + 1][..i] == text[..i];
    }
    assert text[..textLen] == text;
  }

  /** The markup with the first character split off. */
  lemma {:induction false} MarkupFront(text: string, colors: seq<string>)
    requires |colors| >= |text| > 0
    ensures Markup(text, colors) == Segment(colors[0], text[0]) + Markup(text[1..], colors[1..])
    decreases |text|
  {
    if |text| > 1 {
      MarkupFront(text[..|text| - 1], colors);
      assert text[..|text| - 1][1..] == text[1..][..|text| - 2];
    } else {
      assert Markup(text[..0], colors) == "";
      assert Markup(text[1..], colors[1..]) == "";
    }
  }

  /** The position of the first `c` in `s` at or after `from`. */
  function FindChar(s: string, c: char, from: nat): (r: Option<nat>)
    ensures r.Some? ==> from <= r.value < |s| && s[r.value] == c
    decreases |s| - from
  {
    if from >= |s| then None else if s[from] == c then Some(from) else FindChar(s, c, from + 1)
  }

  lemma {:induction false} FindCharSkips(s: string, c: char, from: nat, k: nat)
    requires from <= k < |s| && s[k] == c
    requires forall j :: from <= j < k ==> s[j] != c
    ensures FindChar(s, c, from) == Some(k)
    decreases k - from
  {
    if from < k {
      FindCharSkips(s, c, from + 1, k);
    }
  }

  /** Reads rich markup back as (colour, character) pairs; `None` if it is not a
      sequence of `[c]ch[/c]` segments. */
  function Unmarkup(s: string): Option<seq<(string, char)>>
    decreases |s|
  {
    if s == [] then Some([])
    else if s[0] != '[' then None
    else match FindChar(s, ']', 1)
      case None => None
      case Some(j) =>
        if j + 1 >= |s| then None
        else
          var color := s[1..j];
          var close := "[/" + color + "]";
          var rest := s[j + 2..];
          if !StartsWith(rest, close) then None
          else match Unmarkup(rest[|close|..])
            case None => None
            case Some(pairs) => Some([(color, s[j + 1])] + pairs)
  }

  /** One segment in front of more markup is read back as its colour and character. */
  lemma UnmarkupSegment(color: string, ch: char, rest: string)
    requires ']' !in color
    ensures Unmarkup(Segment(color, ch) + rest)
      == match Unmarkup(rest) case None => None case Some(pairs) => Some([(color, ch)] + pairs)
  {
    var s := Segment(color, ch) + rest;
    var j := |color| + 1;
    var close := "[/" + color + "]";
    SegmentLayout(color, ch, rest);
    assert StartsWith(close + rest, close);
    assert (close + rest)[|close|..] == rest;
  }

  /** Where the parts of a segment sit: the opening bracket, the colour up to the first
      `]`, the character, and the closing tag in front of the rest. */
  lemma SegmentLayout(color: string, ch: char, rest: string)
    requires ']' !in color
    ensures var s, j := Segment(color, ch) + rest, |color| + 1;
      j + 1 < |s| && s[0] == '[' && FindChar(s, ']', 1) == Some(j) && s[1..j] == color
      && s[j + 1] == ch && s[j + 2..] == "[/" + color + "]" + rest
  {
    var s := Segment(color, ch) + rest;
    var j := |color| + 1;
    assert s[0] == '[';
    assert forall k :: 1 <= k < j ==> s[k] == color[k - 1];
    assert s[j] == ']';
    FindCharSkips(s, ']', 1, j);
    assert s[1..j] == color;
    assert s[j + 1] == ch;
    assert s[j + 2..] == "[/" + color + "]" + rest;
  }

  /** Each character of `text` with the colour it is given. */
  function Pairs(text: string, colors: seq<string>): (r: seq<(string, char)>)
    requires |colors| >= |text|
    ensures |r| == |text|
    ensures forall i :: 0 <= i < |text| ==> r[i] == (colors[i], text[i])
  {
    if text == [] then [] else [(colors[0], text[0])] + Pairs(text[1..], colors[1..])
  }

  /** Reading the gradient text back gives each character with its colour, for
      colours without a `]` (the hex colours of the palettes). */
  lemma {:induction false} MarkupRoundTrip(text: string, colors: seq<string>)
    requires |colors| >= |text|
    requires forall i :: 0 <= i < |text| ==> ']' !in colors[i]
    ensures Unmarkup(Markup(text, colors)) == Some(Pairs(text, colors))
    decreases |text|
  {
    if text != [] {
      var rest := Markup(text[1..], colors[1..]);
      MarkupFront(text, colors);
      MarkupRoundTrip(text[1..], colors[1..]);
      UnmarkupSegment(colors[0], text[0], rest);
    }
  }

  // ---------------------------------------------------------------------------
  // Hex and RGB (`__hex_to_rgb`, `__rgb_to_hex`)

  datatype Rgb = Rgb(r: int, g: int, b: int)

  /** `s.lstrip('#')`: every leading `#` removed. */
  function LStripHash(s: string): (t: string)
    ensures |t| <= |s| && t == s[|s| - |t|..]
    ensures t == [] || t[0] != '#'
  {
    if s != [] && s[0] == '#' then LStripHash(s[1..]) else s
  }

  /** Python's `s[i:j]` for `0 <= i <= j`: clipped to the string. */
  function Slice(s: string, i: nat, j: nat): string
    requires i <= j
  {
    if i >= |s| then "" else if j >= |s| then s[i..] else s[i..j]
  }

  /** `__hex_to_rgb`: the three two-character slices read as base-16 integers;
      `None` where `int(.., 16)` raises. */
  function HexToRgb(hexColor: string): Option<Rgb> {
    var h := LStripHash(hexColor);
    match (ParseInt(Slice(h, 0, 2), Hex), ParseInt(Slice(h, 2, 4), Hex), ParseInt(Slice(h, 4, 6), Hex))
    case (Some(r), Some(g), Some(b)) => Some(Rgb(r, g, b))
    case _ => None
  }

  function HexChar(d: nat): (c: char)
    requires d < 16
    ensures IsDigitIn(c, Hex) && DigitValue(c, Hex) == d
  {
    if d < 10 then DigitChar(d) else (d - 10 + 'a' as int) as char
  }

  /** `format(n, 'x')` for `n >= 0`: lower-case hex digits without leading zeros. */
  function HexDigits(n: nat): (s: string)
    ensures |s| >= 1
    decreases n
  {
    if n < 16 then [HexChar(n)] else HexDigits(n / 16) + [HexChar(n % 16)]
  }

  /** `format(n, '02x')`: at least two characters, zero-padded; a negative number
      keeps its sign within the width. */
  function Hex02(n: int): (s: string)
    ensures |s| >= 2
  {
    if n < 0 then "-" + HexDigits(-n)
    else var d := HexDigits(n); if |d| < 2 then "0" + d else d
  }

  /** `__rgb_to_hex`: `#rrggbb`. */
  function RgbToHex(c: Rgb): string {
    "#" + Hex02(c.r) + Hex02(c.g) + Hex02(c.b)
  }

  predicate IsLowerHex(c: char) {
    IsAsciiDigit(c) || 'a' <= c <= 'f'
  }

  /** A colour in the canonical form the palettes use: `#` and six lower-case hex digits. */
  predicate IsCanonicalHex(h: string) {
    |h| == 7 && h[0] == '#' && forall i :: 1 <= i < 7 ==> IsLowerHex(h[i])
  }

  /** Two lower-case hex digits. */
  predicate IsHexPair(s: string) {
    |s| == 2 && IsLowerHex(s[0]) && IsLowerHex(s[1])
  }

  function PairValue(s: string): (v: nat)
    requires IsHexPair(s)
    ensures v < 256
  {
    16 * DigitValue(s[0], Hex) + DigitValue(s[1], Hex)
  }

  lemma PairMagnitude(s: string)
    requires IsHexPair(s)
    ensures Magnitude(s, Hex) == Some(PairValue(s))
  {
    assert AfterPrefix(s, Hex) == s;
    assert DigitOrSeparator(s, 0, Hex) && DigitOrSeparator(s, 1, Hex);
    assert WellFormedDigits(s, Hex);
    assert DropUnderscores(s) == s;
    var head := s[..1];
    assert head[..|head| - 1] == [];
    assert head[|head| - 1] == s[0];
    assert Horner(head, Hex) == DigitValue(s[0], Hex);
    assert s[..|s| - 1] == head;
    assert Horner(s, Hex) == Horner(head, Hex) * 16 + DigitValue(s[1], Hex);
  }

  lemma PairParses(s: string)
    requires IsHexPair(s)
    ensures ParseInt(s, Hex) == Some(PairValue(s))
  {
    assert !IsIntSpace(s[0]) && !IsIntSpace(s[1]);
    StripUnchanged(s, IntBlanks);
    PairMagnitude(s);
    assert !(s[0] == '-' || s[0] == '+');
  }

  lemma PairFormats(s: string)
    requires IsHexPair(s)
    ensures Hex02(PairValue(s)) == s
  {
    var a, b := DigitValue(s[0], Hex), DigitValue(s[1], Hex);
    assert HexChar(a) == s[0] && HexChar(b) == s[1];
    if a == 0 {
      assert HexDigits(b) == [s[1]];
    } else {
      assert (16 * a + b) / 16 == a && (16 * a + b) % 16 == b;
      assert HexDigits(16 * a + b) == [s[0], s[1]];
    }
  }

  /** `__hex_to_rgb` of a canonical colour reads its three pairs. */
  lemma HexToRgbCanonical(h: string)
    requires IsCanonicalHex(h)
    ensures IsHexPair(h[1..3]) && IsHexPair(h[3..5]) && IsHexPair(h[5..7])
    ensures HexToRgb(h) == Some(Rgb(PairValue(h[1..3]), PairValue(h[3..5]), PairValue(h[5..7])))
  {
    CanonicalSlices(h);
    PairParses(h[1..3]);
    PairParses(h[3..5]);
    PairParses(h[5..7]);
  }

  /** The slices `__hex_to_rgb` reads from a canonical colour are its three pairs. */
  lemma CanonicalSlices(h: string)
    requires IsCanonicalHex(h)
    ensures IsHexPair(h[1..3]) && IsHexPair(h[3..5]) && IsHexPair(h[5..7])
    ensures var t := LStripHash(h);
            Slice(t, 0, 2) == h[1..3] && Slice(t, 2, 4) == h[3..5] && Slice(t, 4, 6) == h[5..7]
  {
    var t := h[1..];
    assert t[0] != '#';
    assert LStripHash(t) == t;
    assert LStripHash(h) == t;
  }

  /** `rgb_to_hex(hex_to_rgb(h)) == h` for a canonical colour, with every channel in 0..255. */
  lemma HexRoundTrip(h: string)
    requires IsCanonicalHex(h)
    ensures HexToRgb(h).Some?
    ensures var c := HexToRgb(h).value; 0 <= c.r < 256 && 0 <= c.g < 256 && 0 <= c.b < 256
    ensures RgbToHex(HexToRgb(h).value) == h
  {
    HexToRgbCanonical(h);
    var p, q, r := h[1..3], h[3..5], h[5..7];
    PairFormats(p);
    PairFormats(q);
    PairFormats(r);
    assert RgbToHex(Rgb(PairValue(p), PairValue(q), PairValue(r))) == "#" + p + q + r;
    SevenChars(h);
  }

  /** A seven-character colour is its `#` followed by its three pairs. */
  lemma SevenChars(h: string)
    requires |h| == 7 && h[0] == '#'
    ensures h == "#" + h[1..3] + h[3..5] + h[5..7]
  {
    assert h[1..] == h[1..3] + h[3..5] + h[5..7];
  }

  // ---------------------------------------------------------------------------
  // Interpolation (`generate_gradient`)

  /** `int(x)` of a rational `x = n / d`: truncation toward zero. */
  function TruncDiv(n: int, d: int): int
    requires d > 0
  {
    if n >= 0 then n / d else -((-n) / d)
  }

  /** One channel at step `i` of `s`: `int(start + (end - start) * i / (s - 1))`,
      computed exactly. */
  function Lerp(start: int, end: int, i: nat, s: nat): int
    requires s >= 2
  {
    TruncDiv(start * (s - 1) + (end - start) * i, s - 1)
  }

  function Interpolate(a: Rgb, b: Rgb, i: nat, s: nat): Rgb
    requires s >= 2
  {
    Rgb(Lerp(a.r, b.r, i, s), Lerp(a.g, b.g, i, s), Lerp(a.b, b.b, i, s))
  }

  /** The loop of `generate_gradient`: `s` colours from `startRgb` to `endRgb`. */
  method GradientSteps(startRgb: Rgb, endRgb: Rgb, s: nat) returns (gradientColor: seq<string>)
    requires s >= 2
    ensures |gradientColor| == s
    ensures forall i :: 0 <= i < s ==> gradientColor[i] == RgbToHex(Interpolate(startRgb, endRgb, i, s))
  {
    gradientColor := [];
    for i := 0 to s
      invariant |gradientColor| == i
      invariant forall k :: 0 <= k < i ==> gradientColor[k] == RgbToHex(Interpolate(startRgb, endRgb, k, s))
    {
      var r := Lerp(startRgb.r, endRgb.r, i, s);
      var g := Lerp(startRgb.g, endRgb.g, i, s);
      var b := Lerp(startRgb.b, endRgb.b, i, s);
      var hex := RgbToHex(Rgb(r, g, b));
      assert hex == RgbToHex(Interpolate(startRgb, endRgb, i, s));
      gradientColor := gradientColor + [hex];
    }
  }

  /** `generate_gradient`: `steps` colours from the start colour to the end colour;
      fewer than two steps count as two. `None` where `__hex_to_rgb` raises on either
      colour. */
  method GenerateGradient(startColor: string, endColor: string, steps: int) returns (result: Option<seq<string>>)
    ensures result.Some? <==> HexToRgb(startColor).Some? && HexToRgb(endColor).Some?
    ensures result.Some? ==> |result.value| == if steps <= 1 then 2 else steps
    ensures result.Some? ==> forall i :: 0 <= i < |result.value| ==>
      result.value[i] == RgbToHex(Interpolate(HexToRgb(startColor).value, HexToRgb(endColor).value, i, |result.value|))
  {
    var s := if steps <= 1 then 2 else steps;
    var startParsed := HexToRgb(startColor);
    var endParsed := HexToRgb(endColor);
    if startParsed.None? || endParsed.None? {
      return None;
    }
    var gradientColor := GradientSteps(startParsed.value, endParsed.value, s);
    return Some(gradientColor);
  }

  lemma MulMono(a: int, b: int, c: int)
    requires a <= b && c >= 0
    ensures a * c <= b * c
  {
    assert b * c - a * c == (b - a) * c;
  }

  /** `n / d` is the `q` with `q * d <= n < (q + 1) * d`. */
  lemma DivUnique(n: int, d: int, q: int)
    requires d > 0 && q * d <= n < q * d + d
    ensures n / d == q
  {
    var p := n / d;
    assert p * d <= n < p * d + d;
    if p < q {
      MulMono(p + 1, q, d);
    } else if p > q {
      MulMono(q + 1, p, d);
    }
  }

  lemma TruncDivExact(k: int, d: int)
    requires d > 0
    ensures TruncDiv(k * d, d) == k
  {
    if k >= 0 {
      assert k * d >= 0 by { MulMono(0, k, d); }
      DivUnique(k * d, d, k);
    } else {
      assert -(k * d) == (-k) * d;
      assert (-k) * d > 0 by { MulMono(1, -k, d); }
      DivUnique((-k) * d, d, -k);
    }
  }

  /** The first step is the start value and the last step the end value. */
  lemma LerpEnds(start: int, end: int, s: nat)
    requires s >= 2
    ensures Lerp(start, end, 0, s) == start
    ensures Lerp(start, end, s - 1, s) == end
  {
    var d := s - 1;
    assert start * d + (end - start) * 0 == start * d;
    assert start * d + (end - start) * d == end * d;
    TruncDivExact(start, d);
    TruncDivExact(end, d);
  }

  lemma DivBounds(n: int, d: int, lo: int, hi: int)
    requires d > 0 && n >= 0 && lo * d <= n <= hi * d
    ensures lo <= n / d <= hi
  {
    var q := n / d;
    assert q * d <= n < q * d + d;
    if q + 1 <= lo {
      MulMono(q + 1, lo, d);
    }
    if hi + 1 <= q {
      MulMono(hi + 1, q, d);
    }
  }

  lemma TruncDivBounds(n: int, d: int, lo: int, hi: int)
    requires d > 0 && lo * d <= n <= hi * d
    ensures lo <= TruncDiv(n, d) <= hi
  {
    if n >= 0 {
      DivBounds(n, d, lo, hi);
    } else {
      assert (-hi) * d == -(hi * d) && (-lo) * d == -(lo * d);
      DivBounds(-n, d, -hi, -lo);
    }
  }

  /** Every step lies between the start and the end value. */
  lemma LerpBetween(start: int, end: int, i: nat, s: nat)
    requires s >= 2 && i <= s - 1
    ensures start <= end ==> start <= Lerp(start, end, i, s) <= end
    ensures end <= start ==> end <= Lerp(start, end, i, s) <= start
  {
    var d := s - 1;
    var delta := end - start;
    var n := start * d + delta * i;
    assert end * d == start * d + delta * d;
    if start <= end {
      MulMono(0, i, delta);
      MulMono(i, d, delta);
      assert i * delta == delta * i && d * delta == delta * d;
      TruncDivBounds(n, d, start, end);
    } else {
      MulMono(0, i, -delta);
      MulMono(i, d, -delta);
      assert i * (-delta) == -(delta * i) && d * (-delta) == -(delta * d);
      TruncDivBounds(n, d, end, start);
    }
  }

  /** For canonical colours the gradient starts with the start colour, ends with the
      end colour, and every channel of every step lies between its two end values. */
  lemma GradientEnds(startColor: string, endColor: string, s: nat, i: nat)
    requires IsCanonicalHex(startColor) && IsCanonicalHex(endColor)
    requires s >= 2 && i < s
    ensures HexToRgb(startColor).Some? && HexToRgb(endColor).Some?
    ensures RgbToHex(Interpolate(HexToRgb(startColor).value, HexToRgb(endColor).value, 0, s)) == startColor
    ensures RgbToHex(Interpolate(HexToRgb(startColor).value, HexToRgb(endColor).value, s - 1, s)) == endColor
    ensures var a, b, c := HexToRgb(startColor).value, HexToRgb(endColor).value, Interpolate(HexToRgb(startColor).value, HexToRgb(endColor).value, i, s);
      0 <= c.r < 256 && 0 <= c.g < 256 && 0 <= c.b < 256
  {
    HexRoundTrip(startColor);
    HexRoundTrip(endColor);
    var a, b := HexToRgb(startColor).value, HexToRgb(endColor).value;
    LerpEnds(a.r, b.r, s);
    LerpEnds(a.g, b.g, s);
    LerpEnds(a.b, b.b, s);
    assert Interpolate(a, b, 0, s) == a;
    assert Interpolate(a, b, s - 1, s) == b;
    LerpBetween(a.r, b.r, i, s);
    LerpBetween(a.g, b.g, i, s);
    LerpBetween(a.b, b.b, i, s);
  }
}
