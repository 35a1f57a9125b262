/** The `Validator` predicates of module/enums.py: the checks applied to each
    configuration field before it is accepted. The warnings they log are left out. */
module Validator {
  import opened Wrappers
  import opened PyText
  import opened PyInt
  import opened PyValue

  /** A character of the CJK Unified Ideographs block, U+4E00..U+9FFF. */
  predicate IsChinese(c: char) {
    0x4E00 <= c as int <= 0x9FFF
  }

  /** `is_contain_chinese`: scans the text and stops at the first ideograph. */
  method IsContainChinese(text: string) returns (found: bool)
    ensures found <==> exists i :: 0 <= i < |text| && IsChinese(text[i])
  {
    for i := 0 to |text|
      invariant forall k :: 0 <= k < i ==> !IsChinese(text[k])
    {
      if IsChinese(text[i]) {
        return true;
      }
    }
    return false;
  }

  /** `is_valid_api_id`: text shorter than `validLength` made only of digits.
      A non-text value makes `len` raise `TypeError`, which is caught: false. */
  predicate IsValidApiId(apiId: Value, validLength: int := 32) {
    match apiId
    case Text(s) => |s| < validLength && IsDigitString(s)
    case _ => false
  }

  /** Every accepted api_id converts to a non-negative integer, which prints back
      as the api_id itself unless the api_id had leading zeros. */
  lemma ApiIdIsNumber(apiId: Value, validLength: int)
    requires IsValidApiId(apiId, validLength)
    ensures ToInt(apiId).Some? && ToInt(apiId).value >= 0
    ensures apiId.s[0] != '0' || |apiId.s| == 1 ==> DecimalString(ToInt(apiId).value) == apiId.s
  {
    var s := apiId.s;
    DigitStringParses(s);
    DigitsOfHorner(s);
  }

  /** A digit string without a redundant leading zero prints back as itself. */
  lemma {:induction false} DigitsOfHorner(s: string)
    requires IsDigitString(s)
    ensures forall i :: 0 <= i < |s| ==> IsDigitIn(s[i], Decimal)
    ensures |s| == 1 || s[0] != '0' ==> Digits(Horner(s, Decimal)) == s
  {
    if |s| == 1 {
      assert DigitChar(DigitValue(s[0], Decimal)) == s[0];
    } else if s[0] != '0' {
      var init := s[..|s| - 1];
      assert IsDigitString(init);
      if |init| > 1 {
        DigitsOfHorner(init);
      }
      var h := Horner(init, Decimal);
      assert h >= 1 by {
        HornerLeadingDigit(init);
      }
      var d := DigitValue(s[|s| - 1], Decimal);
      assert Horner(s, Decimal) == h * 10 + d;
      assert (h * 10 + d) / 10 == h && (h * 10 + d) % 10 == d;
      if |init| == 1 {
        assert Digits(h) == init;
      }
      assert DigitChar(d) == s[|s| - 1];
      assert s == init + [s[|s| - 1]];
    }
  }

  lemma {:induction false} HornerLeadingDigit(s: string)
    requires IsDigitString(s) && s[0] != '0'
    ensures forall i :: 0 <= i < |s| ==> IsDigitIn(s[i], Decimal)
    ensures Horner(s, Decimal) >= 1
  {
    if |s| > 1 {
      HornerLeadingDigit(s[..|s| - 1]);
    }
  }

  /** The printed form of an integer is an accepted api_id exactly when the integer
      is non-negative and has fewer than `validLength` digits. */
  lemma ApiIdOfNumber(k: int, validLength: int)
    ensures IsValidApiId(Text(DecimalString(k)), validLength) <==> k >= 0 && |Digits(k)| < validLength
  {
  }

  /** `is_valid_api_hash`: `str(api_hash)` has exactly `validLength` characters. */
  function IsValidApiHash(apiHash: Value, validLength: int := 32): (r: bool)
    ensures apiHash.Text? ==> (r <==> |apiHash.s| == validLength)
    ensures apiHash.Int? && apiHash.i >= 0 ==> (r <==> |Digits(apiHash.i)| == validLength)
    ensures apiHash == Nothing ==> (r <==> validLength == 4)
  {
    |Str(apiHash)| == validLength
  }

  /** `is_valid_bot_token`: `validFormat` occurs in the token. */
  predicate IsValidBotToken(botToken: string, validFormat: string := ":") {
    Contains(botToken, validFormat)
  }

  /** With the default format, a token is valid exactly when it contains a colon. */
  lemma BotTokenHasColon(botToken: string)
    ensures IsValidBotToken(botToken) <==> exists i :: 0 <= i < |botToken| && botToken[i] == ':'
  {
    if IsValidBotToken(botToken) {
      var i: nat :| OccursAt(botToken, ":", i);
      assert botToken[i..i + 1] == [botToken[i]];
    }
    if exists i :: 0 <= i < |botToken| && botToken[i] == ':' {
      var i :| 0 <= i < |botToken| && botToken[i] == ':';
      assert OccursAt(botToken, ":", i);
    }
  }

  /** `is_valid_max_download_task`: `int(v) > 0`. A failed conversion yields false
      (`ValueError`) or `None` after logging (any other error); both are falsy. */
  predicate IsValidMaxDownloadTask(maxTasks: Value) {
    ToInt(maxTasks).Some? && ToInt(maxTasks).value > 0
  }

  /** The printed form of an integer is an accepted task count exactly when the integer is positive. */
  lemma MaxTasksOfNumber(k: int)
    ensures IsValidMaxDownloadTask(Text(DecimalString(k))) <==> k > 0
    ensures IsValidMaxDownloadTask(Int(k)) <==> k > 0
  {
    DecimalRoundTrip(k);
  }

  /** Text with no digit at all is never an accepted task count (the `ValueError` path). */
  lemma MaxTasksNeedsDigit(s: string)
    requires forall k :: 0 <= k < |s| ==> !IsAsciiDigit(s[k])
    ensures !IsValidMaxDownloadTask(Text(s))
  {
    ParseNeedsDigit(s, Decimal);
  }

  /** `is_valid_enable_proxy`: the answer is `'y'` or `'n'`; otherwise the function
      falls off its end and returns `None`, which callers read as false. */
  predicate IsValidEnableProxy(enableProxy: Value) {
    enableProxy == Text("y") || enableProxy == Text("n")
  }

  /** `is_valid_scheme`: the scheme is one of the offered ones. */
  predicate IsValidScheme(scheme: string, validFormat: seq<string>) {
    scheme in validFormat
  }

  /** `is_valid_port`: `0 < int(port) <= 65535`; a failed conversion is false. */
  predicate IsValidPort(port: Value) {
    match ToInt(port)
    case Some(p) => 0 < p <= 65535
    case None => false
  }

  /** The printed form of an integer is an accepted port exactly when the integer is in 1..65535. */
  lemma PortOfNumber(p: int)
    ensures IsValidPort(Text(DecimalString(p))) <==> 0 < p <= 65535
    ensures IsValidPort(Int(p)) <==> 0 < p <= 65535
  {
    DecimalRoundTrip(p);
  }

  /** Text with no digit at all is never a valid port. */
  lemma PortNeedsDigit(s: string)
    requires forall k :: 0 <= k < |s| ==> !IsAsciiDigit(s[k])
    ensures !IsValidPort(Text(s))
  {
    ParseNeedsDigit(s, Decimal);
  }

  /** `is_valid_download_type`: text is converted with `int`, any other value is
      compared as it is (a `bool` compares as 0 or 1, `None` raises `TypeError`);
      the code must lie in 1..3. */
  predicate IsValidDownloadType(dtype: Value) {
    match dtype
    case Text(s) => (match ParseInt(s, Decimal) case Some(n) => 0 < n < 4 case None => false)
    case Int(i) => 0 < i < 4
    case Bool(b) => b
    case Nothing => false
  }

  /** The download type is valid exactly when `int()` of it is 1, 2 or 3, the codes
      that `set_dtype` maps to a list. */
  lemma DownloadTypeIsCode(dtype: Value)
    ensures IsValidDownloadType(dtype) <==> ToInt(dtype).Some? && 1 <= ToInt(dtype).value <= 3
  {
  }

  /** Text led by a separator U+001C..U+001F is neither a port, a download type nor a
      task count, although `strip()` would remove that separator: `int()` raises on it. */
  lemma SeparatorRejected(s: string)
    requires s != [] && 0x1C <= s[0] as int <= 0x1F
    ensures !IsValidPort(Text(s))
    ensures !IsValidDownloadType(Text(s))
    ensures !IsValidMaxDownloadTask(Text(s))
  {
    ParseRejectsSeparator(s, Decimal);
  }
}
