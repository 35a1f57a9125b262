/** UTF-8 as Python's `str.encode('utf-8')` and `bytes.decode('utf-8', errors='ignore')`
    use it. Characters are Unicode scalar values, so every string is encodable. */
module Utf8 {
  import opened Wrappers

  newtype byte = x: int | 0 <= x < 0x100

  /** A byte of the form 10xxxxxx, which never starts a character. */
  predicate IsContinuation(b: byte) {
    0x80 <= b <= 0xBF
  }

  /** The UTF-8 encoding of one character: one to four bytes, a lead byte then
      continuation bytes. */
  function EncodeChar(c: char): (bs: seq<byte>)
    ensures 1 <= |bs| <= 4
    ensures |bs| == 1 <==> (c as int) < 0x80
    ensures forall k :: 1 <= k < |bs| ==> IsContinuation(bs[k])
  {
    var n := c as int;
    if n < 0x80 then
      [n as byte]
    else if n < 0x800 then
      [(0xC0 + n / 0x40) as byte, (0x80 + n % 0x40) as byte]
    else if n < 0x1_0000 then
      [(0xE0 + n / 0x1000) as byte, (0x80 + n / 0x40 % 0x40) as byte, (0x80 + n % 0x40) as byte]
    else
      [(0xF0 + n / 0x4_0000) as byte, (0x80 + n / 0x1000 % 0x40) as byte,
       (0x80 + n / 0x40 % 0x40) as byte, (0x80 + n % 0x40) as byte]
  }

  /** `s.encode('utf-8')`. */
  function Encode(s: string): (bs: seq<byte>)
    ensures |bs| >= |s|
    ensures s == [] <==> bs == []
  {
    if s == [] then [] else EncodeChar(s[0]) + Encode(s[1..])
  }

  /** The smallest and largest second byte a well-formed sequence may have after
      lead byte `b0` (the table of well-formed byte sequences in the Unicode standard,
      section 3.9): the bounds exclude overlong forms, surrogates and values past U+10FFFF. */
  function SecondLow(b0: byte): byte {
    if b0 == 0xE0 then 0xA0 else if b0 == 0xF0 then 0x90 else 0x80
  }

  function SecondHigh(b0: byte): byte {
    if b0 == 0xED then 0x9F else if b0 == 0xF4 then 0x8F else 0xBF
  }

  predicate SecondOk(b0: byte, b1: byte) {
    SecondLow(b0) <= b1 <= SecondHigh(b0)
  }

  /** Decodes the character at the front of `bs` together with the number of bytes it
      takes, or `None` when the front of `bs` is not a complete well-formed sequence. */
  function DecodeFirst(bs: seq<byte>): (r: Option<(char, nat)>)
    ensures r.Some? ==> 1 <= r.value.1 <= |bs|
    ensures |bs| > 0 && IsContinuation(bs[0]) ==> r == None
  {
    if |bs| == 0 then None
    else
      var b0 := bs[0];
      if b0 < 0x80 then
        Some(((b0 as int) as char, 1))
      else if 0xC2 <= b0 <= 0xDF then
        if |bs| >= 2 && IsContinuation(bs[1]) then
          Some((((b0 as int - 0xC0) * 0x40 + (bs[1] as int - 0x80)) as char, 2))
        else None
      else if 0xE0 <= b0 <= 0xEF then
        if |bs| >= 3 && SecondOk(b0, bs[1]) && IsContinuation(bs[2]) then
          Some((((b0 as int - 0xE0) * 0x1000 + (bs[1] as int - 0x80) * 0x40
                 + (bs[2] as int - 0x80)) as char, 3))
        else None
      else if 0xF0 <= b0 <= 0xF4 then
        if |bs| >= 4 && SecondOk(b0, bs[1]) && IsContinuation(bs[2]) && IsContinuation(bs[3]) then
          Some((((b0 as int - 0xF0) * 0x4_0000 + (bs[1] as int - 0x80) * 0x1000
                 + (bs[2] as int - 0x80) * 0x40 + (bs[3] as int - 0x80)) as char, 4))
        else None
      else None
  }

  /** `bytes.decode('utf-8', errors='ignore')`. An ill-formed byte is skipped on its own;
      the decoder then resumes at the next byte. CPython drops the whole maximal ill-formed
      prefix at once, but every byte after its first is a continuation byte, which is
      skipped here on its own as well, so the two produce the same text. */
  function DecodeIgnore(bs: seq<byte>): (s: string)
    ensures |s| <= |bs|
    decreases |bs|
  {
    if bs == [] then []
    else
      match DecodeFirst(bs)
      case Some((c, n)) => [c] + DecodeIgnore(bs[n..])
      case None => DecodeIgnore(bs[1..])
  }

  /** The encoding of a character decodes back to it, whatever follows. */
  lemma DecodeFirstEncoded(c: char, rest: seq<byte>)
    ensures DecodeFirst(EncodeChar(c) + rest) == Some((c, |EncodeChar(c)|))
  {
    var n := c as int;
    if n < 0x80 {
    } else if n < 0x800 {
      DecodeTwo(c, rest);
    } else if n < 0x1_0000 {
      DecodeThree(c, rest);
    } else {
      DecodeFour(c, rest);
    }
  }

  lemma DecodeTwo(c: char, rest: seq<byte>)
    requires 0x80 <= c as int < 0x800
    ensures DecodeFirst(EncodeChar(c) + rest) == Some((c, 2))
  {
    var n := c as int;
    var hi, lo := n / 0x40, n % 0x40;
    assert n == hi * 0x40 + lo;
    var bs := EncodeChar(c) + rest;
    assert bs[0] as int == 0xC0 + hi && bs[1] as int == 0x80 + lo;
  }

  lemma DecodeThree(c: char, rest: seq<byte>)
    requires 0x800 <= c as int < 0x1_0000
    ensures DecodeFirst(EncodeChar(c) + rest) == Some((c, 3))
  {
    var n := c as int;
    var q := n / 0x40;
    var a, b, d := q / 0x40, q % 0x40, n % 0x40;
    assert n == q * 0x40 + d && q == a * 0x40 + b;
    assert n / 0x1000 == a;
    assert n == a * 0x1000 + b * 0x40 + d;
    var bs := EncodeChar(c) + rest;
    assert bs[0] as int == 0xE0 + a && bs[1] as int == 0x80 + b && bs[2] as int == 0x80 + d;
  }

  lemma DecodeFour(c: char, rest: seq<byte>)
    requires 0x1_0000 <= c as int
    ensures DecodeFirst(EncodeChar(c) + rest) == Some((c, 4))
  {
    var n := c as int;
    var q := n / 0x40;
    var r := q / 0x40;
    var a, b, e, d := r / 0x40, r % 0x40, q % 0x40, n % 0x40;
    assert n == q * 0x40 + d && q == r * 0x40 + e && r == a * 0x40 + b;
    assert n / 0x1000 == r && n / 0x4_0000 == a;
    assert n == a * 0x4_0000 + b * 0x1000 + e * 0x40 + d;
    var bs := EncodeChar(c) + rest;
    assert bs[0] as int == 0xF0 + a && bs[1] as int == 0x80 + b;
    assert bs[2] as int == 0x80 + e && bs[3] as int == 0x80 + d;
  }

  /** Decoding an encoded character followed by anything yields that character first. */
  lemma DecodeCons(c: char, rest: seq<byte>)
    ensures DecodeIgnore(EncodeChar(c) + rest) == [c] + DecodeIgnore(rest)
  {
    var bs := EncodeChar(c) + rest;
    DecodeFirstEncoded(c, rest);
    assert bs[|EncodeChar(c)|..] == rest;
  }

  /** Encoding distributes over concatenation. */
  lemma {:induction false} EncodeAppend(a: string, b: string)
    ensures Encode(a + b) == Encode(a) + Encode(b)
  {
    if a != [] {
      assert (a + b)[0] == a[0] && (a + b)[1..] == a[1..] + b;
      EncodeAppend(a[1..], b);
    } else {
      assert a + b == b;
    }
  }

  /** Decoding with errors ignored undoes encoding, even with bytes following. */
  lemma {:induction false} DecodeEncodedPrefix(s: string, rest: seq<byte>)
    ensures DecodeIgnore(Encode(s) + rest) == s + DecodeIgnore(rest)
  {
    if s != [] {
      var head, tail := EncodeChar(s[0]), Encode(s[1..]);
      assert Encode(s) + rest == head + (tail + rest);
      DecodeCons(s[0], tail + rest);
      DecodeEncodedPrefix(s[1..], rest);
      assert [s[0]] + s[1..] == s;
      AppendAssoc([s[0]], s[1..], DecodeIgnore(rest));
    } else {
      assert Encode(s) + rest == rest;
    }
  }

  lemma AppendAssoc<T>(a: seq<T>, b: seq<T>, c: seq<T>)
    ensures a + (b + c) == (a + b) + c
  {
  }

  /** The round trip: `s.encode().decode('utf-8', errors='ignore') == s`. */
  lemma DecodeEncode(s: string)
    ensures DecodeIgnore(Encode(s)) == s
  {
    DecodeEncodedPrefix(s, []);
    assert Encode(s) + [] == Encode(s);
  }

  /** Continuation bytes on their own decode to nothing. */
  lemma {:induction false} ContinuationsIgnored(bs: seq<byte>)
    requires forall k :: 0 <= k < |bs| ==> IsContinuation(bs[k])
    ensures DecodeIgnore(bs) == []
    decreases |bs|
  {
    if bs != [] {
      ContinuationsIgnored(bs[1..]);
    }
  }

  /** A character's encoding cut short decodes to nothing: the incomplete character is dropped. */
  lemma CutCharIgnored(c: char, k: nat)
    requires k < |EncodeChar(c)|
    ensures DecodeIgnore(EncodeChar(c)[..k]) == []
  {
    var bs := EncodeChar(c)[..k];
    if k > 0 {
      assert DecodeFirst(bs) == None;
      ContinuationsIgnored(bs[1..]);
    }
  }

  /** The number of leading characters of `s` whose encoding fits in `k` bytes: the
      longest such prefix, since one more character no longer fits. */
  function FitCount(s: string, k: nat): (j: nat)
    ensures j <= |s|
    ensures |Encode(s[..j])| <= k
    ensures j < |s| ==> |Encode(s[..j + 1])| > k
  {
    if s == [] || |EncodeChar(s[0])| > k then
      assert s != [] ==> s[..1] == [s[0]] && Encode(s[..1]) == EncodeChar(s[0]) + Encode([]);
      assert s[..0] == [];
      0
    else
      var j := 1 + FitCount(s[1..], k - |EncodeChar(s[0])|);
      EncodePrefix(s, j);
      if j < |s| then EncodePrefix(s, j + 1); j else j
  }

  /** The encoding of a non-empty prefix: the first character, then the rest of the prefix. */
  lemma EncodePrefix(s: string, j: nat)
    requires 1 <= j <= |s|
    ensures Encode(s[..j]) == EncodeChar(s[0]) + Encode(s[1..][..j - 1])
  {
    assert s[..j][0] == s[0] && s[..j][1..] == s[1..][..j - 1];
  }

  /** Decoding the first `k` bytes of an encoding with errors ignored gives the longest
      prefix of characters that fits in `k` bytes: a character cut in two is dropped. */
  lemma {:induction false} DecodeTruncated(s: string, k: nat)
    requires k <= |Encode(s)|
    ensures DecodeIgnore(Encode(s)[..k]) == s[..FitCount(s, k)]
  {
    if s != [] {
      if |EncodeChar(s[0])| > k {
        TruncatedInFirst(s, k);
      } else {
        var m := k - |EncodeChar(s[0])|;
        TruncatedAfterFirst(s, k);
        FitAfterFirst(s, k);
        DecodeTruncated(s[1..], m);
      }
    }
  }

  /** The cut falls inside the first character: nothing is decoded and nothing fits. */
  lemma TruncatedInFirst(s: string, k: nat)
    requires s != [] && |EncodeChar(s[0])| > k
    ensures DecodeIgnore(Encode(s)[..k]) == [] == s[..FitCount(s, k)]
  {
    assert Encode(s)[..k] == EncodeChar(s[0])[..k];
    CutCharIgnored(s[0], k);
  }

  /** The cut falls after the first character: it is decoded, then the rest is cut. */
  lemma TruncatedAfterFirst(s: string, k: nat)
    requires s != [] && |EncodeChar(s[0])| <= k <= |Encode(s)|
    ensures var m := k - |EncodeChar(s[0])|;
            m <= |Encode(s[1..])|
            && DecodeIgnore(Encode(s)[..k]) == [s[0]] + DecodeIgnore(Encode(s[1..])[..m])
  {
    var head := EncodeChar(s[0]);
    var tail := Encode(s[1..]);
    var m := k - |head|;
    assert Encode(s) == head + tail;
    assert Encode(s)[..k] == head + tail[..m];
    DecodeCons(s[0], tail[..m]);
  }

  /** When the first character fits, it is kept and the rest is fitted to what is left. */
  lemma FitAfterFirst(s: string, k: nat)
    requires s != [] && |EncodeChar(s[0])| <= k
    ensures s[..FitCount(s, k)] == [s[0]] + s[1..][..FitCount(s[1..], k - |EncodeChar(s[0])|)]
  {
    var j := FitCount(s[1..], k - |EncodeChar(s[0])|);
    assert FitCount(s, k) == 1 + j;
    assert s[..1 + j] == [s[0]] + s[1..][..j];
  }

  /** When the whole encoding fits, every character fits. */
  lemma FitWhole(s: string, k: nat)
    requires |Encode(s)| <= k
    ensures FitCount(s, k) == |s| && s[..FitCount(s, k)] == s
  {
    var j := FitCount(s, k);
    assert j == |s| ==> s[..j] == s;
    if j < |s| {
      assert s == s[..j + 1] + s[j + 1..];
      EncodeAppend(s[..j + 1], s[j + 1..]);
    }
  }
}
