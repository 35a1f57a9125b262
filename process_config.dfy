/** `ProcessConfig` of module/enums.py: the download-type code and its list and
    flag forms, the colour keyed by field name, and the proxy completeness check. */
module ProcessConfig {
  import opened Wrappers
  import opened PyValue

  const VIDEO := "video"
  const PHOTO := "photo"
  const DOCUMENT := "document"

  /** `set_dtype`: the code typed at the prompt (1, 2 or 3) as the list of media
      kinds to download; any other integer gives `None`. The source converts with
      `int()` first, which raises on anything that is not an integer. */
  function SetDtype(dtype: Value): Option<seq<string>>
    requires ToInt(dtype).Some?
  {
    var code := ToInt(dtype).value;
    if code == 1 then Some([VIDEO])
    else if code == 2 then Some([PHOTO])
    else if code == 3 then Some([VIDEO, PHOTO])
    else None
  }

  /** The result of `get_dtype`: `{'video': .., 'photo': ..}` or `{'error': True}`. */
  datatype DtypeFlags = Flags(video: bool, photo: bool) | Error

  /** `list.remove(x)` on a list that holds `x`: the first occurrence is taken out
      and the order of the rest is kept. */
  function RemoveFirst(xs: seq<string>, x: string): (r: seq<string>)
    requires x in xs
    ensures |r| == |xs| - 1
    ensures multiset(r) == multiset(xs) - multiset{x}
    ensures r == xs[..IndexOf(xs, x)] + xs[IndexOf(xs, x) + 1..]
  {
    var i := IndexOf(xs, x);
    assert xs == xs[..i] + [x] + xs[i + 1..];
    xs[..i] + xs[i + 1..]
  }

  /** The position of the first occurrence of `x` (`list.index`). */
  function IndexOf(xs: seq<string>, x: string): (i: nat)
    requires x in xs
    ensures i < |xs| && xs[i] == x && x !in xs[..i]
  {
    if xs[0] == x then 0 else 1 + IndexOf(xs[1..], x)
  }

  /** `get_dtype` after the removal: one known kind, or any two entries. */
  function ClassifyDtype(xs: seq<string>): DtypeFlags {
    if |xs| == 1 && xs[0] == VIDEO then Flags(true, false)
    else if |xs| == 1 && xs[0] == PHOTO then Flags(false, true)
    else if |xs| == 2 then Flags(true, true)
    else Error
  }

  /** The list `get_dtype` leaves behind in its argument. */
  function WithoutDocument(xs: seq<string>): seq<string> {
    if DOCUMENT in xs then RemoveFirst(xs, DOCUMENT) else xs
  }

  /** A Python list that a function receives and changes in place. */
  class PyList {
    var items: seq<string>

    constructor (xs: seq<string>)
      ensures items == xs
    {
      items := xs;
    }
  }

  /** `get_dtype`: removes the first `'document'` from the caller's list, then
      classifies what is left. */
  method GetDtype(downloadDtype: PyList) returns (r: DtypeFlags)
    modifies downloadDtype
    ensures downloadDtype.items == WithoutDocument(old(downloadDtype.items))
    ensures r == ClassifyDtype(downloadDtype.items)
  {
    if DOCUMENT in downloadDtype.items {
      downloadDtype.items := RemoveFirst(downloadDtype.items, DOCUMENT);
    }
    var dtLength := |downloadDtype.items|;
    if dtLength == 1 {
      var dtype := downloadDtype.items[0];
      if dtype == VIDEO {
        return Flags(true, false);
      } else if dtype == PHOTO {
        return Flags(false, true);
      }
    } else if dtLength == 2 {
      return Flags(true, true);
    }
    return Error;
  }

  /** `dict.get('video')` / `dict.get('photo')` on a `get_dtype` result. */
  function FlagOf(f: DtypeFlags, video: bool): Option<bool> {
    match f
    case Flags(v, p) => Some(if video then v else p)
    case Error => None
  }

  /** The download-type rows of `print_config_table` (module/stdio.py:187-193): the
      configured list is copied, and `get_dtype` is called on the copy twice, once
      for the video flag and once for the photo flag. The caller's list is untouched
      because the copy is a fresh list. */
  method ConfigTableDtypes(downloadType: seq<string>) returns (video: Option<bool>, photo: Option<bool>)
    ensures video == FlagOf(ClassifyDtype(WithoutDocument(downloadType)), true)
    ensures photo == FlagOf(ClassifyDtype(WithoutDocument(WithoutDocument(downloadType))), false)
  {
    var dtype := new PyList(downloadType);
    var first := GetDtype(dtype);
    video := FlagOf(first, true);
    var second := GetDtype(dtype);
    photo := FlagOf(second, false);
  }

  /** Removing the first `'document'` removes every one when there was at most one. */
  lemma WithoutDocumentIdempotent(xs: seq<string>)
    requires multiset(xs)[DOCUMENT] <= 1
    ensures DOCUMENT !in WithoutDocument(xs)
    ensures WithoutDocument(WithoutDocument(xs)) == WithoutDocument(xs)
  {
    if DOCUMENT in xs {
      assert multiset(RemoveFirst(xs, DOCUMENT))[DOCUMENT] == 0;
    }
  }

  /** For a configured list with at most one `'document'`, the two calls in
      `print_config_table` report the flags of one `get_dtype` call. */
  lemma ConfigTableAgreesWithOneCall(downloadType: seq<string>)
    requires multiset(downloadType)[DOCUMENT] <= 1
    ensures FlagOf(ClassifyDtype(WithoutDocument(WithoutDocument(downloadType))), false)
         == FlagOf(ClassifyDtype(WithoutDocument(downloadType)), false)
  {
    WithoutDocumentIdempotent(downloadType);
  }

  /** `get_dtype(set_dtype(c))` for each valid code: 1 is video only, 2 photo only,
      3 both; every other integer code has no list. */
  lemma SetThenGetDtype(dtype: Value)
    requires ToInt(dtype).Some?
    ensures var c := ToInt(dtype).value;
      match SetDtype(dtype)
      case Some(xs) => 1 <= c <= 3 && ClassifyDtype(WithoutDocument(xs)) == Flags(c != 2, c != 1)
      case None => c < 1 || c > 3
  {
  }

  /** `get_download_type` (module/enums.py:618-627): the code recorded from a
      `get_dtype` result; an error result records nothing. */
  function RecordedCode(f: DtypeFlags): Option<int> {
    match f
    case Error => None
    case Flags(v, p) =>
      if v && !p then Some(1)
      else if !v && p then Some(2)
      else if v && p then Some(3)
      else None
  }

  /** The code survives the trip code → list → flags → code. */
  lemma CodeRoundTrip(c: int)
    requires 1 <= c <= 3
    ensures SetDtype(Int(c)).Some?
    ensures RecordedCode(ClassifyDtype(WithoutDocument(SetDtype(Int(c)).value))) == Some(c)
  {
  }

  /** `get_dtype` never reports a selection without any media kind. */
  lemma ClassifyNeverEmpty(xs: seq<string>)
    ensures ClassifyDtype(xs) != Flags(false, false)
  {
  }

  /** The field names `stdio_style` knows, in the order of their palette index. */
  const StdioKeys: seq<string> := [
    "api_id", "api_hash", "bot_token", "links", "save_directory", "max_download_task",
    "download_type", "is_shutdown", "enable_proxy", "config_proxy", "scheme", "hostname",
    "port", "proxy_authentication"
  ]

  /** `GradientColor.ORANGE2YELLOW_15`, the default palette of `stdio_style`. */
  const ORANGE2YELLOW_15: seq<string> := [
    "#f08a5d", "#f1915e", "#f1985f", "#f29f60", "#f3a660", "#f3ad61", "#f4b462", "#f5bc63",
    "#f5c364", "#f6ca65", "#f6d166", "#f7d866", "#f8df67", "#f8e668", "#f9ed69"
  ]

  /** `_stdio_queue.get(key)`. */
  function StdioIndex(key: string): (i: nat)
    requires key in StdioKeys
    ensures i < |StdioKeys| && StdioKeys[i] == key
  {
    IndexOf(StdioKeys, key)
  }

  /** `stdio_style`: the palette colour at the field's position. An unknown field
      (`color[None]`) or a palette too short raises, so callers must avoid both. */
  function StdioStyle(key: string, color: seq<string> := ORANGE2YELLOW_15): string
    requires key in StdioKeys && StdioIndex(key) < |color|
  {
    color[StdioIndex(key)]
  }

  /** Every known field has a colour in the default palette, and two fields share
      a colour only when their positions share one. */
  lemma DefaultStyleDefined(k1: string, k2: string)
    requires k1 in StdioKeys && k2 in StdioKeys
    ensures StdioIndex(k1) < |ORANGE2YELLOW_15|
    ensures StdioStyle(k1) == ORANGE2YELLOW_15[StdioIndex(k1)]
    ensures k1 != k2 ==> StdioIndex(k1) != StdioIndex(k2)
  {
  }

  /** A proxy configuration as a Python dict, key/value pairs in insertion order. */
  type ProxyConfig = seq<(string, Value)>

  /** `dict.get(key)`. */
  function Get(config: ProxyConfig, key: string): Option<Value> {
    if config == [] then None
    else if config[0].0 == key then Some(config[0].1)
    else Get(config[1..], key)
  }

  const BasicKeys: set<string> := {"scheme", "port", "hostname"}
  const AccountKeys: set<string> := {"username", "password"}

  /** Some present basic field (scheme, port, hostname) holds a falsy value. */
  predicate BasicIncomplete(config: ProxyConfig) {
    exists k :: 0 <= k < |config| && config[k].0 in BasicKeys && !Truthy(config[k].1)
  }

  /** Of the present account fields (username, password), one is set and one is not. */
  predicate AccountPartial(config: ProxyConfig) {
    (exists k :: 0 <= k < |config| && config[k].0 in AccountKeys && Truthy(config[k].1))
    && (exists k :: 0 <= k < |config| && config[k].0 in AccountKeys && !Truthy(config[k].1))
  }

  /** `all(values)`. */
  predicate All(values: seq<Value>) {
    forall v :: v in values ==> Truthy(v)
  }

  /** `any(values)`. */
  predicate Any(values: seq<Value>) {
    exists v :: v in values && Truthy(v)
  }

  /** `is_proxy_input`: whether the proxy settings still need input. An explicit
      `enable_proxy: False` (the boolean itself) needs nothing; otherwise input is
      needed when a present basic field is falsy or the account is half filled in.
      Absent basic fields are not noticed, because `all([])` is true. */
  method IsProxyInput(proxyConfig: ProxyConfig) returns (result: bool)
    ensures result <==> Get(proxyConfig, "enable_proxy") != Some(Bool(false))
                        && (BasicIncomplete(proxyConfig) || AccountPartial(proxyConfig))
  {
    result := false;
    var basicTruthTable: seq<Value> := [];
    var advanceAccountTruthTable: seq<Value> := [];
    if Get(proxyConfig, "enable_proxy") == Some(Bool(false)) {
      return false;
    }
    for i := 0 to |proxyConfig|
      invariant forall v :: v in basicTruthTable <==>
        exists k :: 0 <= k < i && proxyConfig[k].0 in BasicKeys && proxyConfig[k].1 == v
      invariant forall v :: v in advanceAccountTruthTable <==>
        exists k :: 0 <= k < i && proxyConfig[k].0 in AccountKeys && proxyConfig[k].1 == v
    {
      var (key, value) := proxyConfig[i];
      if key in BasicKeys {
        basicTruthTable := basicTruthTable + [value];
      }
      if key in AccountKeys {
        advanceAccountTruthTable := advanceAccountTruthTable + [value];
      }
    }
    if !All(basicTruthTable) {
      result := true;
    }
    if Any(advanceAccountTruthTable) && !All(advanceAccountTruthTable) {
      result := true;
    }
  }
}
