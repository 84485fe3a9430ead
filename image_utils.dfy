/** The URL helpers of `src/lib/image-utils.ts`: the accepted upload MIME
    types, the optimised-image URL with its query string, the `srcset`
    builder and the responsive size table. Option numbers are integers. */
module ImageUtils {
  import opened Wrappers
  import Strings
  import JsStrings

  // ---------------------------------------------------------- size table

  datatype ResponsiveSizes = ResponsiveSizes(thumbnail: nat, small: nat, medium: nat, large: nat, xlarge: nat)

  /** `DEFAULT_SIZES`. */
  const DEFAULT_SIZES := ResponsiveSizes(150, 320, 640, 1024, 1920)

  /** The default `srcset` widths of `generateSrcSet`. */
  const DEFAULT_SRCSET_WIDTHS: seq<int> := [320, 640, 1024, 1920]

  function SizeList(s: ResponsiveSizes): seq<int> {
    [s.thumbnail, s.small, s.medium, s.large, s.xlarge]
  }

  predicate StrictlyIncreasing(s: seq<int>) {
    forall i, j :: 0 <= i < j < |s| ==> s[i] < s[j]
  }

  /** The size table grows strictly from thumbnail to xlarge, and the
      default `srcset` widths are its sizes from small up. */
  lemma {:induction false} DefaultSizes()
    ensures StrictlyIncreasing(SizeList(DEFAULT_SIZES))
    ensures DEFAULT_SRCSET_WIDTHS == SizeList(DEFAULT_SIZES)[1..]
  {
  }

  // ----------------------------------------------------------- MIME type

  const VALID_TYPES: seq<string> := ["image/jpeg", "image/jpg", "image/png", "image/webp", "image/gif", "image/svg+xml"]

  /** `isValidImageType`: `validTypes.includes(mimetype)`, an exact,
      case-sensitive comparison. */
  predicate IsValidImageType(mimetype: string) {
    mimetype in VALID_TYPES
  }

  /** Exactly the six listed types are accepted, all of them `image/`
      types. */
  lemma {:induction false} ValidImageTypes(m: string)
    ensures IsValidImageType(m) <==>
      m == "image/jpeg" || m == "image/jpg" || m == "image/png"
      || m == "image/webp" || m == "image/gif" || m == "image/svg+xml"
    ensures IsValidImageType(m) ==> |m| > 6 && m[..6] == "image/"
  {
  }

  // ------------------------------------------------ URLSearchParams text

  /** The UTF-8 bytes of a code point. */
  function Utf8(c: char): (bs: seq<nat>)
    ensures 1 <= |bs| <= 4 && forall k :: 0 <= k < |bs| ==> bs[k] < 256
  {
    var n := c as int;
    if n < 0x80 then [n]
    else if n < 0x800 then [0xC0 + n / 64, 0x80 + n % 64]
    else if n < 0x10000 then [0xE0 + n / 4096, 0x80 + (n / 64) % 64, 0x80 + n % 64]
    else [0xF0 + (n / 262144) % 8, 0x80 + (n / 4096) % 64, 0x80 + (n / 64) % 64, 0x80 + n % 64]
  }

  function HexUpper(d: nat): char
    requires d < 16
  {
    if d < 10 then ('0' as int + d) as char else ('A' as int + d - 10) as char
  }

  function PercentByte(b: nat): string
    requires b < 256
  {
    ['%', HexUpper(b / 16), HexUpper(b % 16)]
  }

  function PercentBytes(bs: seq<nat>): (r: string)
    requires forall k :: 0 <= k < |bs| ==> bs[k] < 256
    ensures forall k :: 0 <= k < |r| ==> r[k] == '%' || ('0' <= r[k] <= '9') || ('A' <= r[k] <= 'F')
  {
    if bs == [] then [] else PercentByte(bs[0]) + PercentBytes(bs[1..])
  }

  /** Left as it is by the `application/x-www-form-urlencoded` serializer
      of the WHATWG URL Standard: ASCII letters and digits and `*-._`. */
  predicate FormSafe(c: char) {
    ('a' <= c <= 'z') || ('A' <= c <= 'Z') || ('0' <= c <= '9') || c == '*' || c == '-' || c == '.' || c == '_'
  }

  /** One character as the serializer writes it: kept, `+` for a space,
      otherwise its UTF-8 bytes percent-encoded in upper-case hex. */
  function FormEncodeChar(c: char): string {
    if FormSafe(c) then [c] else if c == ' ' then "+" else PercentBytes(Utf8(c))
  }

  function FormEncode(s: string): (r: string)
    ensures forall k :: 0 <= k < |r| ==> FormSafe(r[k]) || r[k] == '+' || r[k] == '%'
  {
    if s == [] then [] else FormEncodeChar(s[0]) + FormEncode(s[1..])
  }

  /** Text the serializer keeps as it is, such as a number's digits. */
  lemma {:induction false} FormEncodeSafe(s: string)
    requires forall k :: 0 <= k < |s| ==> FormSafe(s[k])
    ensures FormEncode(s) == s
  {
    if s != [] {
      FormEncodeSafe(s[1..]);
      assert s == [s[0]] + s[1..];
    }
  }

  /** The four query parameters, in the order the source sets them. */
  datatype Param = W | H | Q | F

  function Name(p: Param): string {
    match p
    case W => "w"
    case H => "h"
    case Q => "q"
    case F => "f"
  }

  function Rank(p: Param): nat {
    match p
    case W => 0
    case H => 1
    case Q => 2
    case F => 3
  }

  function EncodePair(p: (Param, string)): (r: string)
    ensures '&' !in r && ',' !in r
  {
    FormEncode(Name(p.0)) + "=" + FormEncode(p.1)
  }

  /** `params.toString()`: the pairs in insertion order, each as
      `name=value`, separated by `&`. */
  function Serialize(pairs: seq<(Param, string)>): string {
    Strings.Join(Strings.Map(pairs, EncodePair), "&")
  }

  /** The query text splits on `&` into exactly the encoded pairs, since
      encoding never leaves an `&` in a name or a value. */
  lemma {:induction false} SerializeSplit(pairs: seq<(Param, string)>)
    requires pairs != []
    ensures Strings.Split(Serialize(pairs), '&') == Strings.Map(pairs, EncodePair)
  {
    Strings.SplitJoin(Strings.Map(pairs, EncodePair), '&');
  }

  // ---------------------------------------------------- optimised image URL

  /** The options of `getOptimizedImageUrl`. */
  datatype UrlOptions = UrlOptions(width: Option<int>, height: Option<int>, quality: Option<int>, format: Option<string>)

  /** `if (options.width)` for a number: present and not 0. */
  predicate TruthyNum(x: Option<int>) {
    x.Some? && x.value != 0
  }

  predicate TruthyStr(x: Option<string>) {
    x.Some? && x.value != ""
  }

  /** The option behind a parameter is truthy. */
  predicate IsSet(o: UrlOptions, p: Param) {
    match p
    case W => TruthyNum(o.width)
    case H => TruthyNum(o.height)
    case Q => TruthyNum(o.quality)
    case F => TruthyStr(o.format)
  }

  /** The text a parameter is set to: a number's `toString()`, or the
      format as given. */
  function ValueOf(o: UrlOptions, p: Param): string {
    match p
    case W => JsStrings.IntToString(o.width.GetOr(0))
    case H => JsStrings.IntToString(o.height.GetOr(0))
    case Q => JsStrings.IntToString(o.quality.GetOr(0))
    case F => o.format.GetOr("")
  }

  /** What one `params.set` call adds to a fresh object: the pair, when
      the option is truthy. */
  function SetParam(o: UrlOptions, p: Param): seq<(Param, string)> {
    if IsSet(o, p) then [(p, ValueOf(o, p))] else []
  }

  /** The query parameters after the four `set` calls. */
  function QueryPairs(o: UrlOptions): seq<(Param, string)> {
    SetParam(o, W) + (SetParam(o, H) + (SetParam(o, Q) + SetParam(o, F)))
  }

  /** The pairs as the `set` calls append them, one after another. */
  lemma {:induction false} QueryPairsInOrder(o: UrlOptions)
    ensures QueryPairs(o) == SetParam(o, W) + SetParam(o, H) + SetParam(o, Q) + SetParam(o, F)
  {
  }

  /** Every parameter with the text it would be set to, in the order
      w, h, q, f. */
  function AllPairs(o: UrlOptions): seq<(Param, string)> {
    [Pair(o, W)] + ([Pair(o, H)] + ([Pair(o, Q)] + [Pair(o, F)]))
  }

  function Pair(o: UrlOptions, p: Param): (Param, string) {
    (p, ValueOf(o, p))
  }

  /** The test that keeps a pair: its option is truthy. */
  function PairIsSet(o: UrlOptions): ((Param, string)) -> bool {
    (pr: (Param, string)) => IsSet(o, pr.0)
  }

  /** The query keeps, in the order w, h, q, f, exactly the parameters
      whose option is truthy, each with its value; so a parameter is in it
      exactly when its option is truthy. */
  lemma {:induction false} QueryPairsFilter(o: UrlOptions)
    ensures QueryPairs(o) == Strings.Filter(AllPairs(o), PairIsSet(o))
  {
    var tail := [Pair(o, Q)] + [Pair(o, F)];
    FilterParam(o, F, []);
    assert [Pair(o, F)] + [] == [Pair(o, F)];
    FilterParam(o, Q, [Pair(o, F)]);
    FilterParam(o, H, tail);
    FilterParam(o, W, [Pair(o, H)] + tail);
  }

  lemma {:induction false} FilterParam(o: UrlOptions, p: Param, rest: seq<(Param, string)>)
    ensures Strings.Filter([Pair(o, p)] + rest, PairIsSet(o)) == SetParam(o, p) + Strings.Filter(rest, PairIsSet(o))
  {
    Strings.FilterCons(Pair(o, p), rest, PairIsSet(o));
  }

  /** The URL `getOptimizedImageUrl` returns. */
  function OptimizedImageUrl(url: string, o: UrlOptions): string {
    var q := Serialize(QueryPairs(o));
    if q != "" then url + "?" + q else url
  }

  /** `getOptimizedImageUrl`: the parameters are set one after another. */
  method GetOptimizedImageUrl(url: string, o: UrlOptions) returns (r: string)
    ensures r == OptimizedImageUrl(url, o)
  {
    var params: seq<(Param, string)> := [];
    if TruthyNum(o.width) {
      params := params + [(W, JsStrings.IntToString(o.width.value))];
    }
    assert params == SetParam(o, W);
    if TruthyNum(o.height) {
      params := params + [(H, JsStrings.IntToString(o.height.value))];
    }
    assert params == SetParam(o, W) + SetParam(o, H);
    if TruthyNum(o.quality) {
      params := params + [(Q, JsStrings.IntToString(o.quality.value))];
    }
    assert params == SetParam(o, W) + SetParam(o, H) + SetParam(o, Q);
    if TruthyStr(o.format) {
      params := params + [(F, o.format.value)];
    }
    assert params == SetParam(o, W) + SetParam(o, H) + SetParam(o, Q) + SetParam(o, F);
    QueryPairsInOrder(o);
    var queryString := Serialize(params);
    r := if queryString != "" then url + "?" + queryString else url;
  }

  /** The URL comes back unchanged exactly when no option is truthy; it
      then has no query at all. */
  lemma {:induction false} UnchangedUrl(url: string, o: UrlOptions)
    ensures OptimizedImageUrl(url, o) == url <==>
      !TruthyNum(o.width) && !TruthyNum(o.height) && !TruthyNum(o.quality) && !TruthyStr(o.format)
  {
    var ps := QueryPairs(o);
    if ps != [] {
      var es := Strings.Map(ps, EncodePair);
      Strings.JoinFirst(es, "&");
    }
  }

  /** Otherwise the URL is the original, `?`, and the query whose
      `&`-separated pieces are the parameters in the order w, h, q, f. */
  lemma {:induction false} QueryOfUrl(url: string, o: UrlOptions)
    requires QueryPairs(o) != []
    ensures var r := OptimizedImageUrl(url, o);
      |r| > |url| + 1 && r[..|url| + 1] == url + "?" && Strings.Split(r[|url| + 1..], '&') == Strings.Map(QueryPairs(o), EncodePair)
  {
    var ps := QueryPairs(o);
    var q := Serialize(ps);
    Strings.JoinFirst(Strings.Map(ps, EncodePair), "&");
    var r := OptimizedImageUrl(url, o);
    assert r == (url + "?") + q;
    assert r[|url| + 1..] == q;
    SerializeSplit(ps);
  }

  /** The query piece for a width: `w=` and its digits. */
  lemma {:induction false} WidthPiece(w: nat)
    ensures EncodePair((W, JsStrings.IntToString(w))) == "w=" + JsStrings.IntToString(w)
  {
    FormEncodeSafe("w");
    FormEncodeSafe(JsStrings.IntToString(w));
  }

  // ------------------------------------------------------------- srcset

  /** One `srcset` candidate: the width-only URL, a space, the width and
      `w`. */
  function SrcSetEntry(baseUrl: string, size: int): string {
    OptimizedImageUrl(baseUrl, UrlOptions(Some(size), None, None, None)) + " " + JsStrings.IntToString(size) + "w"
  }

  /** `generateSrcSet`; absent sizes are the default widths. */
  function SrcSet(baseUrl: string, sizes: Option<seq<int>>): string {
    Strings.Join(Strings.Map(sizes.GetOr(DEFAULT_SRCSET_WIDTHS), (s: int) => SrcSetEntry(baseUrl, s)), ", ")
  }

  /** A positive width gives `<base>?w=<width> <width>w`. */
  lemma {:induction false} SrcSetEntryOfWidth(baseUrl: string, size: nat)
    requires size > 0
    ensures SrcSetEntry(baseUrl, size) == baseUrl + "?w=" + JsStrings.IntToString(size) + " " + JsStrings.IntToString(size) + "w"
  {
    var o := UrlOptions(Some(size), None, None, None);
    var d := JsStrings.IntToString(size);
    WidthOnlyQuery(size);
    assert OptimizedImageUrl(baseUrl, o) == baseUrl + "?" + ("w=" + d);
    assert baseUrl + "?" + ("w=" + d) == baseUrl + "?w=" + d;
  }

  /** The query of a width-only URL: `w=` and the digits. */
  lemma {:induction false} WidthOnlyQuery(size: nat)
    requires size > 0
    ensures Serialize(QueryPairs(UrlOptions(Some(size), None, None, None))) == "w=" + JsStrings.IntToString(size)
  {
    var o := UrlOptions(Some(size), None, None, None);
    assert QueryPairs(o) == [(W, JsStrings.IntToString(size))];
    WidthPiece(size);
    assert Strings.Map(QueryPairs(o), EncodePair) == ["w=" + JsStrings.IntToString(size)];
  }

  /** The `srcset` splits on commas into one candidate per size, in input
      order, each but the first after one space, provided the base URL
      holds no comma. */
  lemma {:induction false} SrcSetSplit(baseUrl: string, sizes: Option<seq<int>>)
    requires ',' !in baseUrl && |sizes.GetOr(DEFAULT_SRCSET_WIDTHS)| >= 1
    ensures var entries := Strings.Map(sizes.GetOr(DEFAULT_SRCSET_WIDTHS), (s: int) => SrcSetEntry(baseUrl, s));
      Strings.Split(SrcSet(baseUrl, sizes), ',') == Strings.SpacedAfterFirst(entries)
  {
    var ss := sizes.GetOr(DEFAULT_SRCSET_WIDTHS);
    var entries := Strings.Map(ss, (s: int) => SrcSetEntry(baseUrl, s));
    forall k | 0 <= k < |entries| ensures ',' !in entries[k] {
      EntryNoComma(baseUrl, ss[k]);
    }
    Strings.JoinWithSpace(entries, ',');
    var sp := Strings.SpacedAfterFirst(entries);
    forall k | 0 <= k < |sp| ensures ',' !in sp[k] {
      if k > 0 {
        assert sp[k] == " " + entries[k];
      }
    }
    assert [',', ' '] == ", ";
    Strings.SplitJoin(sp, ',');
  }

  lemma {:induction false} EntryNoComma(baseUrl: string, size: int)
    requires ',' !in baseUrl
    ensures ',' !in SrcSetEntry(baseUrl, size)
  {
    var o := UrlOptions(Some(size), None, None, None);
    var es := Strings.Map(QueryPairs(o), EncodePair);
    Strings.JoinAvoids(es, "&", ',');
    NoCommaInNumber(size);
  }

  lemma {:induction false} NoCommaInNumber(n: int)
    ensures ',' !in JsStrings.IntToString(n)
  {
    var d := JsStrings.IntToString(n);
    if n < 0 {
      assert d == [d[0]] + d[1..];
    }
  }
}
