# Telegram_Restricted_Media_Downloader: core helpers in Dafny

This project models the pure and stateful helpers at the core of the downloader's
`module/enums.py`, `module/stdio.py` and `module/path_tool.py`, and proves properties of
them. It covers:

- the configuration validators;
- the download-type bookkeeping of `ProcessConfig`;
- the gradient colouring of prompts;
- the keystroke buffer of the timed prompt;
- the QR-code terminal renderers;
- the byte-count unit display;
- the download statistics table;
- the file-name, file-type and extension helpers used when saving media.

One Dafny module per concern:

| module | file | models |
|---|---|---|
| `PyText`, `PyInt`, `PyValue` | `py_text.dfy`, `py_int.dfy`, `py_value.dfy` | the parts of Python's `str`, `int()` and dynamic values that the code relies on |
| `Utf8` | `utf8.dfy` | `str.encode('utf-8')` and `bytes.decode('utf-8', errors='ignore')` |
| `Validator` | `validator.dfy` | `Validator` (enums.py) |
| `ProcessConfig` | `process_config.dfy` | `ProcessConfig` (enums.py) and the download-type rows of `print_config_table` |
| `Gradient` | `gradient.dfy` | `GradientColor` (enums.py) |
| `TimeoutInput` | `timeout_input.dfy` | the keystroke loop of `GetStdioParams.__timeout_input` (enums.py) |
| `QrRender` | `qr_render.dfy` | `QrcodeRender` and the grid padding of `MetaData.__qr_terminal_str` (stdio.py) |
| `Units` | `units.dfy` | `MetaData.suitable_units_display` / `__determine_suitable_units` (stdio.py) |
| `CountTable` | `count_table.dfy` | `StatisticalTable` (stdio.py) |
| `PathTool` | `path_tool.dfy` | `truncate_filename`, `validate_title`, `get_extension`, `__guess_extension`, `__get_file_type`, `gen_backup_config`, `compare_file_size` |

The model takes the form of the source:

- Code that mutates state is imperative Dafny:
  - `get_dtype` changes its caller's list, so the list is a `PyList` object.
  - `StatisticalTable` is a class with its six sets.
  - The list-building loops of the gradient, the renderers, the padding and the unit
    search are methods with loop invariants.
  - Each method is proved against a specification function.
- Expression-only code is functions and lemmas.
- Dynamic Python values (YAML fields, terminal text) are the datatype
  `PyValue.Value`.
- Where Python raises, the model returns `None` or an `Err`.

Two behaviours of the code that are easy to misread:

- `__extend_gradient_colors` appends `colors[-2::-1]` (all but the last colour,
  reversed) and then `colors[:-1]` (all but the last colour, forward), again and again.
  So `colors[0]` appears twice in a row at every turn back, and the last colour of the
  palette never comes back. `Gradient.ExtensionShape` states this.
- `is_proxy_input` checks only the basic and account keys that are present in the
  proxy settings. An absent key adds nothing to either check, and `all([])` is true.

`compare_file_size` in `module/path_tool.py` is a single equality test of two sizes. It is
modelled as `PathTool.CompareFileSize` and has nothing further to state. In the same way,
`is_valid_enable_proxy` and `is_valid_scheme` in `module/enums.py` are single membership tests
(the answer is `'y'` or `'n'`; the scheme is one of the offered ones), modelled as
`Validator.IsValidEnableProxy` and `Validator.IsValidScheme`.

## Model

| member | source | states |
|---|---|---|
| PyText.Strip | module/enums.py:413 | `strip()` removes exactly the leading and trailing whitespace: the result is a slice of the input, it neither starts nor ends with whitespace, and an all-whitespace input gives the empty string; the same holds for the narrower set `int()` skips |
| PyText.StripIdempotent | module/enums.py:413 | stripping twice is stripping once |
| PyText.IntKeepsSeparators | module/enums.py:281 | `strip()` removes a leading U+001C but the trimming of `int()` keeps it |
| PyText.Contains | module/enums.py:228 | `pat in s` holds exactly when `pat` occurs at some position of `s` |
| PyText.DecimalString | module/enums.py:222-223 | `str(n)` is non-empty, has no surrounding space, is all digits exactly when `n >= 0`, and starts with `-` otherwise |
| PyInt.DecimalRoundTrip | module/enums.py:281 | `int(str(n)) == n` for every integer |
| PyInt.DigitStringParses | module/enums.py:208-209 | a non-empty ASCII digit string passes `int()` and reads as its digit value |
| PyInt.ParseNeedsDigit | module/enums.py:281-283 | text without a digit makes `int()` raise |
| PyInt.ParseRejectsSeparator | module/enums.py:281-283 | text that starts with one of U+001C..U+001F makes `int()` raise, although `isspace` accepts those characters |
| Validator.IsContainChinese | module/enums.py:198-203 | the scan answers true exactly when some character lies in U+4E00..U+9FFF |
| Validator.ApiIdIsNumber | module/enums.py:206-220 | with digits read as ASCII digits (see "## Left out"), every accepted api_id converts to a non-negative integer, which prints back as the same text when there is no redundant leading zero |
| Validator.ApiIdOfNumber | module/enums.py:206-220 | the printed form of an integer is accepted exactly when the integer is non-negative and has fewer digits than the length limit |
| Validator.IsValidApiHash | module/enums.py:222-223 | `len(str(api_hash)) == valid_length`: text by its length, an integer by its digit count, `None` as the four characters of `'None'` |
| Validator.BotTokenHasColon | module/enums.py:226-230 | with the default format a token is valid exactly when it contains a colon |
| Validator.PortOfNumber | module/enums.py:279-288 | an integer, or its printed text, is a valid port exactly when it is in 1..65535 |
| Validator.PortNeedsDigit | module/enums.py:279-288 | text without any digit is never a valid port (the `ValueError` path) |
| Validator.DownloadTypeIsCode | module/enums.py:291-301 | a download type is valid exactly when its integer value is 1, 2 or 3 |
| Validator.SeparatorRejected | module/enums.py:256-301 | text led by one of U+001C..U+001F is neither a valid port, a valid download type nor a valid task count |
| Validator.MaxTasksOfNumber | module/enums.py:256-262 | an integer, or its printed text, is an accepted maximum task count exactly when it is positive |
| Validator.MaxTasksNeedsDigit | module/enums.py:256-262 | text without any digit is never an accepted task count (the `ValueError` path) |
| ProcessConfig.RemoveFirst | module/enums.py:318-319 | `list.remove` takes out exactly the first occurrence: one element fewer, the multiset loses one copy, the rest keeps its order |
| ProcessConfig.GetDtype | module/enums.py:316-329 | the caller's list loses its first `'document'` in place, and the flags classify what is left (one kind, two entries, or error) |
| ProcessConfig.ConfigTableDtypes | module/stdio.py:187-195 | the photo flag is read from the list that the video call already changed, i.e. after two removals |
| ProcessConfig.WithoutDocumentIdempotent | module/enums.py:318-319 | with at most one `'document'`, one removal leaves none and a second changes nothing |
| ProcessConfig.ConfigTableAgreesWithOneCall | module/stdio.py:187-195 | for such lists the second `get_dtype` call gives the same photo flag as a single call would |
| ProcessConfig.SetThenGetDtype | module/enums.py:306-329 | `get_dtype(set_dtype(c))`: 1 is video only, 2 photo only, 3 both; other codes give `None` |
| ProcessConfig.CodeRoundTrip | module/enums.py:618-627 | the code recorded by `get_download_type` from `get_dtype(set_dtype(c))` is `c` again |
| ProcessConfig.ClassifyNeverEmpty | module/enums.py:316-329 | `get_dtype` never reports a selection with neither video nor photo |
| ProcessConfig.StdioIndex | module/enums.py:336-351 | each known field has a position in the style table |
| ProcessConfig.DefaultStyleDefined | module/enums.py:332-352 | every known field gets a colour of the default 15-colour palette, and distinct fields get distinct positions |
| ProcessConfig.IsProxyInput | module/enums.py:355-373 | input is needed exactly when the proxy is not explicitly disabled and either a present basic field is falsy or the present account fields are partly filled |
| Gradient.ExtendRound | module/enums.py:109-113 | one pass of the loop as written grows the list whenever the palette has two colours or more |
| Gradient.ShortPaletteStalls | module/enums.py:109-113 | with fewer than two colours a pass of the loop as written appends nothing, so the loop never ends |
| Gradient.OneColourStalls | module/enums.py:109-113 | a one-colour palette stretched to two characters: the first pass leaves one colour |
| Gradient.ExtendGradientColors | module/enums.py:107-115 | the loop returns exactly `target_length` colours, the colour at each position being the palette followed by the back-and-forth tail, or the single colour repeated |
| Gradient.ExtendedFromPalette | module/enums.py:107-115 | the extension starts with the palette itself and only uses the palette's colours |
| Gradient.CycleInPrefix | module/enums.py:109-113 | every colour of the repeating tail is one of the palette's first `n-1` colours |
| Gradient.ExtensionShape | module/enums.py:107-115 | past the palette the extension never shows the last colour, repeats with period `2(n-1)`, and shows `colors[0]` twice in a row at each turn |
| Gradient.GenGradientText | module/enums.py:118-129 | each character is wrapped in `[c]…[/c]` with the colour of its position in the (extended) palette |
| Gradient.MarkupRoundTrip | module/enums.py:127-128 | reading the markup back gives every character with its colour, in order, for colours without `]` |
| Gradient.LStripHash | module/enums.py:134 | `lstrip('#')` leaves a suffix of the input that does not start with `#` |
| Gradient.PairParses | module/enums.py:135 | `int(pair, 16)` of two lower-case hex digits is the pair's value |
| Gradient.PairFormats | module/enums.py:140 | `format(v, '02x')` of that value gives the pair back |
| Gradient.HexToRgbCanonical | module/enums.py:132-135 | a canonical colour `#rrggbb` is read as its three channel pairs |
| Gradient.HexRoundTrip | module/enums.py:132-140 | `rgb_to_hex(hex_to_rgb(h)) == h` for canonical colours, with every channel in 0..255 |
| Gradient.GradientSteps | module/enums.py:150-155 | the loop appends exactly `s` colours, colour `i` being the channel-wise interpolation at step `i` |
| Gradient.GenerateGradient | module/enums.py:143-157 | the result fails exactly when a colour does not parse; otherwise it has `max(steps, 2)` entries, each the interpolated colour |
| Gradient.LerpEnds | module/enums.py:152-154 | the first step is the start value and the last step the end value |
| Gradient.LerpBetween | module/enums.py:152-154 | every step lies between the start and the end value |
| Gradient.GradientEnds | module/enums.py:143-157 | for canonical colours the gradient begins with the start colour, ends with the end colour, and every channel stays in 0..255 |
| TimeoutInput.StripOrDefault | module/enums.py:413 | `input.strip() or default` is the default, or a non-empty text with no surrounding whitespace; all-space input gives the default |
| TimeoutInput.TimeoutInput | module/enums.py:405-424 | the loop stops at the first Enter or deadline poll; Enter returns the stripped buffer (or the default), the deadline returns the default, otherwise the buffer is what the keys typed |
| TimeoutInput.PlainTyping | module/enums.py:418-420 | keys other than Backspace and Enter build the buffer in order |
| TimeoutInput.BackspaceUndoes | module/enums.py:414-417 | Backspace right after a character removes exactly that character |
| TimeoutInput.BackspaceRemovesLast | module/enums.py:414-417 | Backspace drops the last character, and does nothing on an empty buffer |
| TimeoutInput.IdleKeepsBuffer | module/enums.py:421-423 | a poll without a key never changes the buffer and ends the loop exactly when the deadline has passed |
| TimeoutInput.TypedLength | module/enums.py:408-420 | the buffer is never longer than the number of events |
| QrRender.TerminatedIsJoined | module/stdio.py:232-233 | lines each followed by a newline, less the final character, are the lines joined by newlines |
| QrRender.DropLastNewline | module/stdio.py:233 | `output[:-1]` removes exactly the last newline, and the output is empty only without lines |
| QrRender.Index2 | module/stdio.py:226-230 | the 2×1 index has the current cell as its high bit and the cell below (dark, `true`, past the end) as its low bit |
| QrRender.Line2 | module/stdio.py:225-231 | one glyph per column |
| QrRender.Lines2 | module/stdio.py:224 | one line per pair of rows |
| QrRender.RenderRow2 | module/stdio.py:225-232 | the inner loop builds exactly the glyph line of that row pair |
| QrRender.Render2by1 | module/stdio.py:221-233 | the output is the glyph lines joined by newlines |
| QrRender.Index3 | module/stdio.py:262-268 | the 3×2 index is below 64 |
| QrRender.Index3Bits | module/stdio.py:257-268 | each of the six cells of the block (dark, `true`, outside the grid) can be read back from its bit of the index |
| QrRender.Line3 | module/stdio.py:261-270 | one glyph per pair of columns |
| QrRender.Lines3 | module/stdio.py:260 | one line per three rows |
| QrRender.RenderRow3 | module/stdio.py:261-270 | the inner loop builds exactly the glyph line of that row triple |
| QrRender.Render3by2 | module/stdio.py:236-272 | the output is the glyph lines joined by newlines |
| QrRender.Glyph2Shows | module/stdio.py:222-231 | the 2×1 glyph draws the light (`false`) cells: full block iff both are light, upper half iff only the top, lower half iff only the bottom, space iff both are dark |
| QrRender.Glyph3Extremes | module/stdio.py:237-270 | a 3×2 block of six light (`false`) cells prints a full block, of six dark cells a space |
| QrRender.NoNewlineGlyph3 | module/stdio.py:237-253 | no 3×2 glyph is a newline |
| QrRender.Render2Shape | module/stdio.py:221-233 | the 2×1 text splits back into one line per two rows, each as wide as the grid |
| QrRender.Render3Shape | module/stdio.py:236-272 | the 3×2 text splits back into one line per three rows, each half as wide as the grid, rounded up |
| QrRender.RenderEmpty | module/stdio.py:224-233 | an empty grid prints nothing with either renderer |
| QrRender.FramedCells | module/stdio.py:357-362 | the padded grid has a light (`false`) border and each module one cell in |
| QrRender.PaddedQrMap | module/stdio.py:357-362 | the padding loop produces the framed grid, two cells larger each way |
| QrRender.FramedUnique | module/stdio.py:356-362 | the padded grid is determined by the modules |
| QrRender.QrTerminalStr | module/stdio.py:353-363 | pad, then render with the chosen renderer |
| QrRender.FramedShape2 | module/stdio.py:353-363 | the 2×1 rendering of a padded code has `(rows+3)/2` lines, each two wider than the code |
| Units.ChosenIndex | module/stdio.py:339-345 | the unit index found is in 0..5 |
| Units.Hundredths | module/stdio.py:337 | `'{:.2f}'` rounding is within half a hundredth of the value |
| Units.Format2 | module/stdio.py:337 | the text is digits with a point third from the end, and without the point it reads as the value rounded to hundredths |
| Units.IndexIn | module/stdio.py:335 | `units.index(u)` is the first position holding `u` |
| Units.ScaledStep | module/stdio.py:341-342 | dividing by 1024 moves to the next unit, and the loop continues exactly when the count reaches the next power of 1024 |
| Units.DetermineSuitableUnits | module/stdio.py:332-345 | with a known unit the value is the count scaled to it, rounded to hundredths; otherwise the first unit under which the count is below 1024 (PB at most), formatted with two decimals |
| Units.SuitableUnitsDisplay | module/stdio.py:327-329 | the display is the formatted scaled count followed by the chosen unit |
| Units.ChosenBounds | module/stdio.py:339-345 | the chosen unit keeps the count at least one unit and below the next |
| Units.ChosenUnique | module/stdio.py:339-345 | only one unit satisfies those bounds |
| Units.SmallInBytes | module/stdio.py:327-345 | counts below 1024 print as the number, `.00` and `B` |
| Units.ShowsLimit | module/stdio.py:327-345 | one byte short of 1 MB prints as `1024.00KB`: the unit is chosen before rounding |
| CountTable.SumRow | module/stdio.py:99-102 | the column sum of two consistent rows is consistent |
| CountTable.StatisticalTable.constructor | module/stdio.py:23-26 | all six sets start empty |
| CountTable.StatisticalTable.VideoRow | module/stdio.py:31-38 | the video row counts the three video sets and its total is their sum |
| CountTable.StatisticalTable.PhotoRow | module/stdio.py:34-38 | the photo row counts the three photo sets and its total is their sum |
| CountTable.StatisticalTable.PrintCountTable | module/stdio.py:28-105 | a table exists only for one or two recorded kinds; one kind gives its row and a summary equal to it, two give both rows and their column sum; every row is consistent |
| CountTable.MediaTotal | module/stdio.py:99-102 | the two-kind summary total is the sum of the six set sizes, so an item is counted once per outcome set that holds it, and it equals the sum of the summary's own columns |
| Utf8.EncodeChar | module/path_tool.py:80 | a character encodes to one to four bytes, one exactly for ASCII, with continuation bytes after the first |
| Utf8.EncodeAppend | module/path_tool.py:80-82 | encoding distributes over concatenation |
| Utf8.DecodeEncode | module/path_tool.py:82 | decoding an encoding with errors ignored gives the text back |
| Utf8.CutCharIgnored | module/path_tool.py:82 | a character whose bytes are cut short is dropped by the decoder |
| Utf8.FitCount | module/path_tool.py:82 | the longest prefix of characters whose encoding fits in `k` bytes |
| Utf8.DecodeTruncated | module/path_tool.py:82 | decoding the first `k` bytes with errors ignored gives exactly that longest fitting prefix |
| PathTool.TruncatedStem | module/path_tool.py:78-83 | the truncated name is the longest stem prefix fitting the byte budget `limit − len(ext bytes)`, a negative budget counting from the end as in Python, followed by the extension unchanged |
| PathTool.TruncateWithinLimit | module/path_tool.py:80-83 | whenever the limit leaves room for the extension, the name fits in `limit` bytes, is a stem prefix plus the extension, and no longer prefix would fit |
| PathTool.TruncateFits | module/path_tool.py:80-83 | a name within the limit comes back unchanged |
| PathTool.ValidateTitle | module/path_tool.py:55-59 | same length, each forbidden character replaced by `_`, every other kept, and no forbidden character left |
| PathTool.ValidateTitleIdempotent | module/path_tool.py:57-58 | sanitising twice is sanitising once |
| PathTool.ValidateTitleUnchanged | module/path_tool.py:57-58 | a title is unchanged exactly when it has no forbidden character |
| PathTool.FromCode | module/path_tool.py:196-199 | `FileType(n)` succeeds exactly for 0..17 and names the type with that code |
| PathTool.CodeRoundTrip | module/path_tool.py:196-199 | every file type is recovered from its code |
| PathTool.Payload | module/path_tool.py:184-189 | one version byte is dropped when the major version is below 4, two otherwise |
| PathTool.Int32Le | module/path_tool.py:191 | the little-endian signed 32-bit value is in range and negative exactly when the top bit is set |
| PathTool.GetFileType | module/path_tool.py:179-200 | it fails on an empty id, on a header shorter than eight bytes, and on a code outside 0..17, and only there |
| PathTool.FileTypeHeader | module/path_tool.py:191-199 | a header names type `t` exactly when its first byte is `t`'s code, the next two are zero and the fourth holds only the two flag bits |
| PathTool.FileTypeOfId | module/path_tool.py:181-199 | the same characterisation for a whole decoded file id |
| PathTool.FlagsIgnored | module/path_tool.py:193-194 | setting the web-location or file-reference flag does not change the type read |
| PathTool.VersionDropped | module/path_tool.py:183-189 | the bytes before the version are what is read |
| PathTool.GuessExtension | module/path_tool.py:173-176 | no guess stays no guess, and a guess is kept or loses one leading dot |
| PathTool.GuessStripsOneDot | module/path_tool.py:176 | exactly one leading dot is removed, even before another dot |
| PathTool.BareExtension | module/path_tool.py:148-166 | the chosen extension is never empty |
| PathTool.GetExtension | module/path_tool.py:134-170 | an empty file id gives `.unknown`/`unknown`; otherwise it fails with the file-type error exactly when the type cannot be read, and returns the extension chosen for that type, the MIME type and the stripped guess, behind a dot when `dot` is set |
| PathTool.DotPrefixes | module/path_tool.py:168-170 | with `dot` the result is the one without, behind a dot, and errors agree |
| PathTool.PhotoIgnoresGuess | module/path_tool.py:148-149 | photo types ignore the guessed extension and take the PHOTO table entry for the MIME type, or `jpg` |
| PathTool.GuessWins | module/path_tool.py:150-164 | for the other handled types a non-empty guess is the extension |
| PathTool.NoGuessDefaults | module/path_tool.py:148-164 | without a guess, or with an empty one: photos take the PHOTO entry or `jpg`; voice `ogg`; video, animation and video note the VIDEO entry or `mp4`; a document the VIDEO entry for a video MIME type, the PHOTO entry for an image one, `zip` otherwise; sticker `webp`; audio `mp3` |
| PathTool.UnhandledUnknown | module/path_tool.py:165-166 | a type without a branch is `unknown` |
| PathTool.Padded | module/path_tool.py:91 | a zero-padded field has the given width, only digits, and reads back as the number |
| PathTool.BackupNameRoundTrip | module/path_tool.py:89-92 | the backup name can be read back into its error flag and timestamp |
| PathTool.BackupNamesDistinct | module/path_tool.py:89-92 | backups of a different kind or second never share a name |

## Left out

- Console I/O is not modelled: the `GetStdioParams.get_*` prompt-and-retry loops, `console.print`/`log` output, banners and help text. Only the pure predicates those loops call are modelled.
- `is_valid_save_directory`, `is_valid_links_file` and `is_valid_hostname` are left out: they ask the file system or the `ipaddress` library.
- The platform plumbing of `__timeout_input` is replaced by a sequence of events: `msvcrt.kbhit`/`getwch`, `time.time`/`time.sleep`, the `select` branch for non-Windows systems, and the exception fallback to `console.input`.
- File-system operations are left out: `split_path`, `safe_delete`, `move_to_save_directory`, `get_file_size`, `is_file_duplicate`, `__is_exist`, and the `os.makedirs`/`os.rename` of `gen_backup_config`.
- PathTool.TruncateName takes the stem and extension already split and already in NFC. `os.path.normpath`, `split`, `splitext`, `join` and `unicodedata.normalize` are not part of this model.
- PathTool.BackupName builds the file name only. Joining it to the backup directory is `os.path.join`, which is not part of this model.
- PathTool.BackupName requires a four-digit year, because `strftime('%Y')` pads earlier years differently from platform to platform. `datetime.now()` is a parameter.
- PathTool.GetFileType starts from the bytes that `rle_decode(b64_decode(file_id))` produces. pyrogram's `file_id` module is not part of this model. Its `FileType` codes, `PHOTO_TYPES` and the two flag bits are restated as constants.
- PathTool.GetExtension takes the `mimetypes.guess_extension` result as a parameter. The `mimetypes` database is not part of this model.
- QrRender.PaddedQrMap requires no module row longer than the first, as `qrcode` grids are square. A row one longer would overwrite the right border, and a longer one raises `IndexError`.
- The QR encoder (`qrcode.QRCode`) is left out: its module grid is an input of `QrRender.QrTerminalStr`.
- QrRender.Glyph3Extremes pins down only the full-block and space entries of the 64-glyph table. That each of the other entries is the Unicode sextant for its bit pattern is not proved.
- rich's rendering is left out: `PanelTable`, `ProgressBar`, `Markdown`.
- CountTable.StatisticalTable.PrintCountTable returns the table instead of printing it. The kind column holds the media kind's name where the source shows its translation (`_t`).
- `print_link_table` (and its completion percentage) and the other parts of `print_config_table` are left out. They format links and proxy settings for display only.
- Gradient.ExtendGradientColors requires a non-empty palette when the text is longer than it. The loop as written never ends there, and there is no colour to give.
- Gradient.GenerateGradient returns `None` where the source raises on a colour that does not parse.
- Gradient.Lerp computes `int(start + d*i/(s-1))` exactly, with truncation toward zero. The source uses a float division, which agrees for any realistic number of steps but is not modelled bit for bit.
- Units.DetermineSuitableUnits works on exact rationals. The source's float division is exact for counts below 2^53. With an explicit unit, the source's `float('{:.2f}')` value is the nearest double to the rounded value; the model keeps it as the exact rational.
- Units.DetermineSuitableUnits takes a non-negative integer count, as every caller passes a byte count.
- ProcessConfig.StdioStyle has no contract of its own. What it returns for the default palette is stated by `ProcessConfig.DefaultStyleDefined`. An unknown key, which makes Python index with `None` and raise, is excluded by its precondition.
- Validator.IsValidApiId and Validator.ApiIdIsNumber use ASCII digits only. Python's `isdigit` also accepts digits that are not decimal digits, such as superscripts ('²') and circled digits ('①'), and `int()` raises on those. So the source accepts the api_id '²', which does not convert to an integer. ApiIdIsNumber holds only under the model's ASCII restriction.
- PyInt.ParseInt accepts ASCII digits only. Python's `int()` also accepts the other Unicode decimal digits (category Nd), such as '٣', which the model rejects.
- `Base64Image`, `BotCommandText`, `BotCallbackText`, `BotMessage`, `BotButton` and the `Banner` strings are static data with no behaviour and are left out.

## Findings

| source | as written | input that shows it | evidently intended | confidence | as-written member | corrected member |
|---|---|---|---|---|---|---|
| module/enums.py:109-113 | the loop appends `colors[-2::-1]` and `colors[:-1]` until the list is long enough; with fewer than two colours both are empty | a one-colour palette such as `['#ffffff']` and a text of two characters: the list stays at one colour and the loop never ends | a one-colour palette colours every character with its colour | not executed; high for the stall itself, medium for the intended result | Gradient.ShortPaletteStalls | Gradient.ExtendGradientColors |
