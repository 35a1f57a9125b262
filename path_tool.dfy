/** The pure helpers of `module/path_tool.py`: file-name truncation to a UTF-8 byte
    limit, title sanitising, the file type carried in a Telegram file id, the extension
    chosen for a download, and the name of a configuration backup. */
module PathTool {
  import opened Wrappers
  import opened PyText
  import opened Utf8
  import opened PyInt

  // ---------------------------------------------------------------- truncate_filename

  /** The length of Python's `b[:stop]` for a sequence of length `len`: a negative
      `stop` counts from the end, and the result is clamped to `0..len`. */
  function SliceStop(len: nat, stop: int): (n: nat)
    ensures n <= len
  {
    if stop >= 0 then (if stop <= len then stop else len)
    else if len + stop >= 0 then len + stop
    else 0
  }

  lemma SliceWhole(len: nat, stop: int)
    requires len <= stop
    ensures SliceStop(len, stop) == len
  {
  }

  /** `truncate_filename` on a name already split into its stem and extension
      (`os.path.splitext`) and already in NFC: the stem's UTF-8 bytes are cut to the
      limit minus the extension's byte length, decoded with errors ignored, and the
      extension is put back. */
  function TruncateName(stem: string, ext: string, limit: int): (name: string)
  {
    DecodeIgnore(Encode(stem)[..StemBudget(stem, ext, limit)]) + ext
  }

  /** How many of the stem's bytes `truncate_filename` keeps: the slice `[:f_max]` with
      `f_max` the limit less the extension's byte length. */
  function StemBudget(stem: string, ext: string, limit: int): (k: nat)
    ensures k <= |Encode(stem)|
  {
    SliceStop(|Encode(stem)|, limit - |Encode(ext)|)
  }

  /** The truncated name is the longest prefix of the stem whose encoding fits in the
      byte budget, followed by the extension unchanged. When the extension alone is
      longer than the limit the budget is negative and, as in Python, counts from the
      end of the stem's bytes. */
  lemma TruncatedStem(stem: string, ext: string, limit: int)
    ensures TruncateName(stem, ext, limit) == stem[..FitCount(stem, StemBudget(stem, ext, limit))] + ext
  {
    DecodeTruncated(stem, StemBudget(stem, ext, limit));
  }

  /** Whenever the limit leaves room for the extension, the result fits in `limit` bytes,
      and no longer prefix of the stem would. */
  lemma TruncateWithinLimit(stem: string, ext: string, limit: int)
    requires limit >= |Encode(ext)|
    ensures var name := TruncateName(stem, ext, limit);
            |Encode(name)| <= limit
            && exists j :: 0 <= j <= |stem| && name == stem[..j] + ext
                 && (j < |stem| ==> |Encode(stem[..j + 1] + ext)| > limit)
  {
    var budget := StemBudget(stem, ext, limit);
    var j := FitCount(stem, budget);
    TruncatedStem(stem, ext, limit);
    EncodeAppend(stem[..j], ext);
    if j < |stem| {
      EncodeAppend(stem[..j + 1], ext);
      assert |Encode(stem[..j + 1])| > limit - |Encode(ext)| by {
        if budget < limit - |Encode(ext)| {
          assert budget == |Encode(stem)|;
          FitWhole(stem, budget);
        }
      }
    }
  }

  /** A name already within the limit comes back unchanged. */
  lemma TruncateFits(stem: string, ext: string, limit: int)
    requires |Encode(stem)| + |Encode(ext)| <= limit
    ensures TruncateName(stem, ext, limit) == stem + ext
  {
    var bytes := Encode(stem);
    SliceWhole(|bytes|, limit - |Encode(ext)|);
    assert bytes[..|bytes|] == bytes;
    DecodeEncode(stem);
  }

  // ---------------------------------------------------------------- validate_title

  /** The characters a title may not keep: `/ \ : * ? " < > |` and the newline. */
  predicate Forbidden(c: char) {
    c in {'/', '\\', ':', '*', '?', '"', '<', '>', '|', '\n'}
  }

  /** `validate_title`: every forbidden character is replaced by `_`. */
  function ValidateTitle(title: string): (r: string)
    ensures |r| == |title|
    ensures forall i :: 0 <= i < |r| ==> !Forbidden(r[i])
    ensures forall i :: 0 <= i < |r| ==> r[i] == (if Forbidden(title[i]) then '_' else title[i])
  {
    if title == [] then []
    else ValidateTitle(title[..|title| - 1]) + [if Forbidden(title[|title| - 1]) then '_' else title[|title| - 1]]
  }

  /** Sanitising a title twice is the same as sanitising it once. */
  lemma ValidateTitleIdempotent(title: string)
    ensures ValidateTitle(ValidateTitle(title)) == ValidateTitle(title)
  {
  }

  /** A title is left unchanged exactly when it has no forbidden character. */
  lemma ValidateTitleUnchanged(title: string)
    ensures ValidateTitle(title) == title <==> forall i :: 0 <= i < |title| ==> !Forbidden(title[i])
  {
    if ValidateTitle(title) == title {
    } else {
      var r := ValidateTitle(title);
      var i :| 0 <= i < |title| && r[i] != title[i];
    }
  }

  // ---------------------------------------------------------------- __get_file_type

  /** pyrogram's `FileType`, with its numeric codes 0..17. */
  datatype FileType =
    | Thumbnail | ChatPhoto | Photo | Voice | Video | Document | Encrypted | Temp
    | Sticker | Audio | Animation | EncryptedThumbnail | Wallpaper | VideoNote
    | SecureRaw | Secure | Background | DocumentAsFile

  function Code(t: FileType): (n: nat)
    ensures n <= 17
  {
    match t
    case Thumbnail => 0 case ChatPhoto => 1 case Photo => 2 case Voice => 3
    case Video => 4 case Document => 5 case Encrypted => 6 case Temp => 7
    case Sticker => 8 case Audio => 9 case Animation => 10 case EncryptedThumbnail => 11
    case Wallpaper => 12 case VideoNote => 13 case SecureRaw => 14 case Secure => 15
    case Background => 16 case DocumentAsFile => 17
  }

  /** `FileType(n)`: the type with code `n`, or `None` where Python raises `ValueError`. */
  function FromCode(n: int): (r: Option<FileType>)
    ensures r.Some? <==> 0 <= n <= 17
    ensures r.Some? ==> Code(r.value) == n
  {
    match n
    case 0 => Some(Thumbnail) case 1 => Some(ChatPhoto) case 2 => Some(Photo)
    case 3 => Some(Voice) case 4 => Some(Video) case 5 => Some(Document)
    case 6 => Some(Encrypted) case 7 => Some(Temp) case 8 => Some(Sticker)
    case 9 => Some(Audio) case 10 => Some(Animation) case 11 => Some(EncryptedThumbnail)
    case 12 => Some(Wallpaper) case 13 => Some(VideoNote) case 14 => Some(SecureRaw)
    case 15 => Some(Secure) case 16 => Some(Background) case 17 => Some(DocumentAsFile)
    case _ => None
  }

  lemma CodeRoundTrip(t: FileType)
    ensures FromCode(Code(t)) == Some(t)
  {
  }

  /** pyrogram's `PHOTO_TYPES`. */
  predicate IsPhotoType(t: FileType) {
    t in {Thumbnail, ChatPhoto, Photo, EncryptedThumbnail, Wallpaper}
  }

  /** pyrogram's `WEB_LOCATION_FLAG` and `FILE_REFERENCE_FLAG`: bits 24 and 25. */
  const WEB_LOCATION_FLAG: nat := 0x100_0000
  const FILE_REFERENCE_FLAG: nat := 0x200_0000

  /** Why `__get_file_type` raises: no version byte (`IndexError`), fewer than eight
      bytes to unpack (`struct.error`), or an unknown type code (`ValueError`). */
  datatype FileIdError = NoVersion | ShortHeader | UnknownType(code: int)

  /** The bytes left once the version is dropped: one byte when the major version (the
      last byte) is below 4, two otherwise (a minor version precedes it). */
  function Payload(decoded: seq<byte>): (p: seq<byte>)
    requires |decoded| > 0
    ensures decoded[|decoded| - 1] < 4 ==> p == decoded[..|decoded| - 1]
    ensures decoded[|decoded| - 1] >= 4 && |decoded| >= 2 ==> p == decoded[..|decoded| - 2]
    ensures decoded[|decoded| - 1] >= 4 && |decoded| < 2 ==> p == []
  {
    var n := |decoded|;
    if decoded[n - 1] < 4 then decoded[..n - 1]
    else decoded[..SliceStop(n, -2)]
  }

  /** The signed little-endian 32-bit integer in four bytes, `struct.unpack('<i', …)`. */
  function Int32Le(b0: byte, b1: byte, b2: byte, b3: byte): (v: int)
    ensures -0x8000_0000 <= v < 0x8000_0000
    ensures v >= 0 <==> b3 < 0x80
  {
    var u := b0 as int + 0x100 * b1 as int + 0x1_0000 * b2 as int + 0x100_0000 * b3 as int;
    if u < 0x8000_0000 then u else u - 0x1_0000_0000
  }

  /** The type code with both flag bits cleared. In two's complement both flags live in
      the top byte, so clearing them is clearing its two low bits. */
  function MaskedCode(b0: byte, b1: byte, b2: byte, b3: byte): int {
    Int32Le(b0, b1, b2, b3 - b3 % 4)
  }

  /** `__get_file_type` on the bytes that pyrogram's `rle_decode(b64_decode(file_id))`
      produced. */
  function GetFileType(decoded: seq<byte>): (r: Result<FileType, FileIdError>)
    ensures r == Err(NoVersion) <==> |decoded| == 0
    ensures r == Err(ShortHeader) <==> |decoded| > 0 && |Payload(decoded)| < 8
    ensures r.Err? && r.error.UnknownType? ==> r.error.code < 0 || r.error.code > 17
  {
    if |decoded| == 0 then Err(NoVersion)
    else
      var p := Payload(decoded);
      if |p| < 8 then Err(ShortHeader)
      else
        var code := MaskedCode(p[0], p[1], p[2], p[3]);
        match FromCode(code)
        case Some(t) => Ok(t)
        case None => Err(UnknownType(code))
  }

  /** A payload of at least eight bytes names type `t` exactly when its first byte is
      `t`'s code, the next two are zero, and the fourth holds nothing but the two flag
      bits. */
  lemma FileTypeHeader(p: seq<byte>, t: FileType)
    requires |p| >= 8
    ensures FromCode(MaskedCode(p[0], p[1], p[2], p[3])) == Some(t)
        <==> p[0] as int == Code(t) && p[1] == 0 && p[2] == 0 && p[3] < 4
  {
    var b3 := p[3] - p[3] % 4;
    assert b3 % 4 == 0;
    if p[3] >= 4 {
      assert b3 >= 4;
    }
  }

  /** The type a file id names, read off its decoded bytes. */
  lemma FileTypeOfId(decoded: seq<byte>, t: FileType)
    requires |decoded| > 0 && |Payload(decoded)| >= 8
    ensures var p := Payload(decoded);
            (GetFileType(decoded) == Ok(t) <==> p[0] as int == Code(t) && p[1] == 0 && p[2] == 0 && p[3] < 4)
  {
    FileTypeHeader(Payload(decoded), t);
  }

  /** Setting either flag bit in the header does not change the type read. */
  lemma FlagsIgnored(b0: byte, b1: byte, b2: byte, b3: byte, flags: byte)
    requires flags < 4 && b3 % 4 == 0
    ensures MaskedCode(b0, b1, b2, b3 + flags) == MaskedCode(b0, b1, b2, b3)
  {
    assert (b3 + flags) % 4 == flags;
  }

  /** How many trailing version bytes are dropped, as seen on the type read. */
  lemma VersionDropped(payload: seq<byte>, major: byte, minor: byte)
    ensures major < 4 ==> Payload(payload + [major]) == payload
    ensures major >= 4 ==> Payload(payload + [minor, major]) == payload
  {
    assert (payload + [major])[..|payload|] == payload;
    assert (payload + [minor, major])[..|payload|] == payload;
  }

  // ---------------------------------------------------------------- __guess_extension

  /** `__guess_extension` on the guess `mimetypes.guess_extension` made: one leading
      dot is removed; no guess stays no guess. */
  function GuessExtension(guess: Option<string>): (r: Option<string>)
    ensures r.None? <==> guess.None?
    ensures guess.Some? ==> r.value == guess.value || "." + r.value == guess.value
  {
    match guess
    case None => None
    case Some(e) => if |e| > 0 && e[0] == '.' then Some(e[1..]) else Some(e)
  }

  /** Exactly one dot is removed, even when the rest starts with another. */
  lemma GuessStripsOneDot(e: string)
    ensures GuessExtension(Some("." + e)) == Some(e)
    ensures |e| == 0 || e[0] != '.' ==> GuessExtension(Some(e)) == Some(e)
  {
    assert ("." + e)[1..] == e;
  }

  // ---------------------------------------------------------------- get_extension

  /** `Extension.PHOTO` of `module/enums.py`: image MIME types to extensions. */
  const PHOTO_EXTENSIONS: map<string, string> := map[
    "image/avif" := "avif", "image/bmp" := "bmp", "image/gif" := "gif",
    "image/ief" := "ief", "image/jpg" := "jpg", "image/jpeg" := "jpeg",
    "image/heic" := "heic", "image/heif" := "heif", "image/png" := "png",
    "image/svg+xml" := "svg", "image/tiff" := "tif", "image/vnd.microsoft.icon" := "ico",
    "image/x-cmu-raster" := "ras", "image/x-portable-anymap" := "pnm",
    "image/x-portable-bitmap" := "pbm", "image/x-portable-graymap" := "pgm",
    "image/x-portable-pixmap" := "ppm", "image/x-rgb" := "rgb",
    "image/x-xbitmap" := "xbm", "image/x-xpixmap" := "xpm", "image/x-xwindowdump" := "xwd"]

  /** `Extension.VIDEO` of `module/enums.py`: video MIME types to extensions. */
  const VIDEO_EXTENSIONS: map<string, string> := map[
    "video/mp4" := "mp4", "video/mpeg" := "mpg", "video/quicktime" := "qt",
    "video/webm" := "webm", "video/x-msvideo" := "avi", "video/x-sgi-movie" := "movie",
    "video/x-matroska" := "mkv"]

  /** `table.get(key, default)`. */
  function Lookup(table: map<string, string>, key: string, default: string): string {
    if key in table then table[key] else default
  }

  /** `guess or default`: an absent or empty guess gives way to the default. */
  function OrElse(guess: Option<string>, default: string): string {
    if guess.Some? && guess.value != [] then guess.value else default
  }

  /** The types `get_extension` has a branch for; every other one is 'unknown'. */
  predicate HasExtensionBranch(t: FileType) {
    IsPhotoType(t) || t in {Voice, Video, Animation, VideoNote, Document, Sticker, Audio}
  }

  /** The extension `get_extension` chooses, without the dot, from the file type, the
      MIME type and the stripped guess. */
  function BareExtension(t: FileType, mimeType: string, guess: Option<string>): (ext: string)
    ensures ext != []
  {
    var video := Lookup(VIDEO_EXTENSIONS, mimeType, "mp4");
    var photo := Lookup(PHOTO_EXTENSIONS, mimeType, "jpg");
    assert video != [] && photo != [];
    if IsPhotoType(t) then photo
    else if t == Voice then OrElse(guess, "ogg")
    else if t in {Video, Animation, VideoNote} then OrElse(guess, video)
    else if t == Document then
      if Contains(mimeType, "video") then OrElse(guess, video)
      else if Contains(mimeType, "image") then OrElse(guess, photo)
      else OrElse(guess, "zip")
    else if t == Sticker then OrElse(guess, "webp")
    else if t == Audio then OrElse(guess, "mp3")
    else "unknown"
  }

  /** `get_extension`. The file id's decoded bytes come from pyrogram's decoder and the
      guess from `mimetypes`; both are inputs here. An error is where Python raises. */
  function GetExtension(fileId: string, decoded: seq<byte>, mimeType: string,
                        mimeGuess: Option<string>, dot: bool): (r: Result<string, FileIdError>)
    ensures fileId == [] ==> r == Ok(if dot then ".unknown" else "unknown")
    ensures fileId != [] ==> (r.Ok? <==> GetFileType(decoded).Ok?)
    ensures r.Ok? && dot ==> |r.value| >= 2 && r.value[0] == '.'
    ensures r.Ok? && !dot ==> r.value != [] && (fileId == [] || GetFileType(decoded).Ok?)
    ensures fileId != [] && GetFileType(decoded).Ok? ==>
      r == Ok((if dot then "." else "") + BareExtension(GetFileType(decoded).value, mimeType, GuessExtension(mimeGuess)))
    ensures fileId != [] && GetFileType(decoded).Err? ==> r == Err(GetFileType(decoded).error)
  {
    if fileId == [] then
      assert "." + "unknown" == ".unknown";
      Ok(if dot then ".unknown" else "unknown")
    else match GetFileType(decoded)
      case Err(e) => Err(e)
      case Ok(t) =>
        var x := BareExtension(t, mimeType, GuessExtension(mimeGuess));
        assert "" + x == x;
        Ok((if dot then "." else "") + x)
  }

  /** With `dot` the result is the one without, behind a dot; the errors are the same. */
  lemma DotPrefixes(fileId: string, decoded: seq<byte>, mimeType: string, mimeGuess: Option<string>)
    ensures var withDot := GetExtension(fileId, decoded, mimeType, mimeGuess, true);
            var bare := GetExtension(fileId, decoded, mimeType, mimeGuess, false);
            withDot.Ok? == bare.Ok?
            && (withDot.Ok? ==> withDot.value == "." + bare.value)
            && (withDot.Err? ==> withDot.error == bare.error)
  {
    if fileId != [] && GetFileType(decoded).Ok? {
      var x := BareExtension(GetFileType(decoded).value, mimeType, GuessExtension(mimeGuess));
      assert "" + x == x;
    }
  }

  /** Photo types ignore the guessed extension: the PHOTO table decides, else 'jpg'. */
  lemma PhotoIgnoresGuess(t: FileType, mimeType: string, guess1: Option<string>, guess2: Option<string>)
    requires IsPhotoType(t)
    ensures BareExtension(t, mimeType, guess1) == BareExtension(t, mimeType, guess2)
    ensures BareExtension(t, mimeType, guess1) == Lookup(PHOTO_EXTENSIONS, mimeType, "jpg")
  {
  }

  /** For the other handled types a non-empty guess always wins. */
  lemma GuessWins(t: FileType, mimeType: string, guess: string)
    requires HasExtensionBranch(t) && !IsPhotoType(t) && guess != []
    ensures BareExtension(t, mimeType, Some(guess)) == guess
  {
  }

  /** Without a guess, or with an empty one, each handled type gets its default:
      the PHOTO table for photos and image documents, the VIDEO table for videos,
      animations, video notes and video documents, and a fixed extension for the rest. */
  lemma NoGuessDefaults(t: FileType, mimeType: string, guess: Option<string>)
    requires guess == None || guess == Some("")
    ensures IsPhotoType(t) ==> BareExtension(t, mimeType, guess) == Lookup(PHOTO_EXTENSIONS, mimeType, "jpg")
    ensures t == Voice ==> BareExtension(t, mimeType, guess) == "ogg"
    ensures t in {Video, Animation, VideoNote} ==>
      BareExtension(t, mimeType, guess) == Lookup(VIDEO_EXTENSIONS, mimeType, "mp4")
    ensures t == Document && Contains(mimeType, "video") ==>
      BareExtension(t, mimeType, guess) == Lookup(VIDEO_EXTENSIONS, mimeType, "mp4")
    ensures t == Document && !Contains(mimeType, "video") && Contains(mimeType, "image") ==>
      BareExtension(t, mimeType, guess) == Lookup(PHOTO_EXTENSIONS, mimeType, "jpg")
    ensures t == Document && !Contains(mimeType, "video") && !Contains(mimeType, "image") ==>
      BareExtension(t, mimeType, guess) == "zip"
    ensures t == Sticker ==> BareExtension(t, mimeType, guess) == "webp"
    ensures t == Audio ==> BareExtension(t, mimeType, guess) == "mp3"
  {
  }

  /** A type without a branch is 'unknown', whatever the MIME type and guess. */
  lemma UnhandledUnknown(t: FileType, mimeType: string, guess: Option<string>)
    requires !HasExtensionBranch(t)
    ensures BareExtension(t, mimeType, guess) == "unknown"
  {
  }

  // ---------------------------------------------------------------- gen_backup_config

  /** The wall-clock time `datetime.now()` reads, to the second. */
  datatype DateTime = DateTime(year: nat, month: nat, day: nat, hour: nat, minute: nat, second: nat)

  predicate ValidDateTime(d: DateTime) {
    1000 <= d.year <= 9999 && 1 <= d.month <= 12 && 1 <= d.day <= 31
    && d.hour < 24 && d.minute < 60 && d.second < 60
  }

  /** `n` in `width` decimal digits, zero-padded on the left. */
  function Padded(n: nat, width: nat): (s: string)
    requires n < Pow10(width)
    ensures |s| == width
    ensures forall i :: 0 <= i < |s| ==> IsAsciiDigit(s[i])
    ensures Horner(s, Decimal) == n
  {
    if width == 0 then []
    else Padded(n / 10, width - 1) + [DigitChar(n % 10)]
  }

  function Pow10(k: nat): (p: nat)
    ensures p >= 1
  {
    if k == 0 then 1 else 10 * Pow10(k - 1)
  }

  /** `strftime("%Y-%m-%d_%H-%M-%S")`. */
  function Timestamp(d: DateTime): (s: string)
    requires ValidDateTime(d)
    ensures |s| == 19
  {
    Padded(d.year, 4) + "-" + Padded(d.month, 2) + "-" + Padded(d.day, 2) + "_"
    + Padded(d.hour, 2) + "-" + Padded(d.minute, 2) + "-" + Padded(d.second, 2)
  }

  /** The name `gen_backup_config` gives the backup of the configuration file. */
  function BackupName(errorConfig: bool, now: DateTime): (name: string)
    requires ValidDateTime(now)
  {
    (if errorConfig then "error_" else "") + "history_" + Timestamp(now) + "_config.yaml"
  }

  /** The digits of `s[i..i+n]` as a number, when they are all digits. */
  function FieldAt(s: string, i: nat, n: nat): Option<nat>
    requires i + n <= |s|
  {
    if forall k :: i <= k < i + n ==> IsAsciiDigit(s[k]) then
      var field := s[i..i + n];
      assert forall k :: 0 <= k < n ==> IsDigitIn(field[k], Decimal);
      Some(Horner(field, Decimal))
    else None
  }

  /** Reads a timestamp back from its 19 characters. */
  function ParseTimestamp(s: string): (r: Option<DateTime>)
    ensures r.Some? ==> ValidDateTime(r.value)
  {
    if |s| != 19 || s[4] != '-' || s[7] != '-' || s[10] != '_' || s[13] != '-' || s[16] != '-' then None
    else
      var y, mo, d := FieldAt(s, 0, 4), FieldAt(s, 5, 2), FieldAt(s, 8, 2);
      var h, mi, se := FieldAt(s, 11, 2), FieldAt(s, 14, 2), FieldAt(s, 17, 2);
      if y.None? || mo.None? || d.None? || h.None? || mi.None? || se.None? then None
      else
        var t := DateTime(y.value, mo.value, d.value, h.value, mi.value, se.value);
        if ValidDateTime(t) then Some(t) else None
  }

  /** Recovers whether a backup name marks an erroneous configuration, and when it was taken. */
  function ParseBackupName(name: string): Option<(bool, DateTime)> {
    var errorConfig := StartsWith(name, "error_");
    var rest := if errorConfig then name[6..] else name;
    if |rest| != 39 || rest[..8] != "history_" || rest[27..] != "_config.yaml" then None
    else
      match ParseTimestamp(rest[8..27])
      case None => None
      case Some(t) => Some((errorConfig, t))
  }

  lemma ParseTimestampRoundTrip(d: DateTime)
    requires ValidDateTime(d)
    ensures ParseTimestamp(Timestamp(d)) == Some(d)
  {
    var s := Timestamp(d);
    assert s[0..4] == Padded(d.year, 4);
    assert s[5..7] == Padded(d.month, 2);
    assert s[8..10] == Padded(d.day, 2);
    assert s[11..13] == Padded(d.hour, 2);
    assert s[14..16] == Padded(d.minute, 2);
    assert s[17..19] == Padded(d.second, 2);
  }

  /** The backup name can be read back: the kind of backup and the second it was taken. */
  lemma BackupNameRoundTrip(errorConfig: bool, now: DateTime)
    requires ValidDateTime(now)
    ensures ParseBackupName(BackupName(errorConfig, now)) == Some((errorConfig, now))
  {
    ParseTimestampRoundTrip(now);
    NameAroundStamp(errorConfig, Timestamp(now), now);
  }

  lemma NameAroundStamp(errorConfig: bool, stamp: string, now: DateTime)
    requires |stamp| == 19 && ParseTimestamp(stamp) == Some(now)
    ensures ParseBackupName((if errorConfig then "error_" else "") + "history_" + stamp + "_config.yaml")
         == Some((errorConfig, now))
  {
    var rest := "history_" + stamp + "_config.yaml";
    var name := (if errorConfig then "error_" else "") + "history_" + stamp + "_config.yaml";
    assert name == (if errorConfig then "error_" else "") + rest;
    if errorConfig {
      assert StartsWith(name, "error_") && name[6..] == rest;
    } else {
      assert name[..6] == "histor";
    }
    assert rest[..8] == "history_" && rest[8..27] == stamp && rest[27..] == "_config.yaml";
  }

  /** Backups of different kinds, or taken at different seconds, get different names. */
  lemma BackupNamesDistinct(e1: bool, d1: DateTime, e2: bool, d2: DateTime)
    requires ValidDateTime(d1) && ValidDateTime(d2)
    requires BackupName(e1, d1) == BackupName(e2, d2)
    ensures e1 == e2 && d1 == d2
  {
    BackupNameRoundTrip(e1, d1);
    BackupNameRoundTrip(e2, d2);
  }

  // ---------------------------------------------------------------- compare_file_size

  /** `compare_file_size`: a download is complete when its size is the server's. */
  function CompareFileSize(aSize: int, bSize: int): bool {
    aSize == bSize
  }
}
