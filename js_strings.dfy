/** The JavaScript string operations the site's code relies on: `trim()`,
    the `\s` class of its regular expressions, `toLowerCase()` and
    `toUpperCase()` (on the characters that matter here), number-to-string
    conversion and `parseInt`. */
module JsStrings {
  import opened Wrappers
  import Strings

  /** ECMAScript WhiteSpace and LineTerminator code points: what `trim()`
      removes and what `\s` matches. */
  predicate IsSpace(c: char) {
    var n := c as int;
    (9 <= n <= 13) || n == 0x20 || n == 0xA0 || n == 0x1680 || (0x2000 <= n <= 0x200A)
    || n == 0x2028 || n == 0x2029 || n == 0x202F || n == 0x205F || n == 0x3000 || n == 0xFEFF
  }

  predicate AllSpace(s: string) {
    forall k :: 0 <= k < |s| ==> IsSpace(s[k])
  }

  /** `s.trimStart()`: the suffix left after dropping leading white space. */
  function TrimStart(s: string): (r: string)
    ensures |r| <= |s| && r == s[|s| - |r|..]
    ensures r == [] || !IsSpace(r[0])
    ensures AllSpace(s[..|s| - |r|])
  {
    if s != [] && IsSpace(s[0]) then
      var r := TrimStart(s[1..]);
      TrimStartStep(s, r);
      r
    else s
  }

  /** One step of `TrimStart`: a leading space moves from the text into the
      dropped part. */
  lemma {:induction false} TrimStartStep(s: string, r: string)
    requires s != [] && IsSpace(s[0])
    requires |r| <= |s| - 1 && r == s[1..][|s| - 1 - |r|..] && AllSpace(s[1..][..|s| - 1 - |r|])
    ensures r == s[|s| - |r|..] && AllSpace(s[..|s| - |r|])
  {
    var t := s[1..];
    assert t[|t| - |r|..] == s[|s| - |r|..];
    forall k | 0 <= k < |s| - |r|
      ensures IsSpace(s[k])
    {
      if k > 0 {
        assert s[k] == t[..|t| - |r|][k - 1];
      }
    }
  }

  /** `s.trimEnd()`: the prefix left after dropping trailing white space. */
  function TrimEnd(s: string): (r: string)
    ensures |r| <= |s| && r == s[..|r|]
    ensures r == [] || !IsSpace(r[|r| - 1])
    ensures AllSpace(s[|r|..])
  {
    if s != [] && IsSpace(s[|s| - 1]) then
      var r := TrimEnd(s[..|s| - 1]);
      TrimEndStep(s, r);
      r
    else s
  }

  /** One step of `TrimEnd`: a trailing space moves from the text into the
      dropped part. */
  lemma {:induction false} TrimEndStep(s: string, r: string)
    requires s != [] && IsSpace(s[|s| - 1])
    requires |r| <= |s| - 1 && r == s[..|s| - 1][..|r|] && AllSpace(s[..|s| - 1][|r|..])
    ensures r == s[..|r|] && AllSpace(s[|r|..])
  {
    var t := s[..|s| - 1];
    assert t[..|r|] == s[..|r|];
    forall k | |r| <= k < |s|
      ensures IsSpace(s[k])
    {
      if k < |s| - 1 {
        assert s[k] == t[|r|..][k - |r|];
      }
    }
  }

  /** `s.trim()`. */
  function Trim(s: string): string {
    TrimEnd(TrimStart(s))
  }

  /** `s.trim()` is empty exactly when `s` is all white space, and otherwise
      it is a slice of `s` that begins and ends with a non-space. */
  lemma {:induction false} TrimProperties(s: string)
    ensures Trim(s) == [] <==> AllSpace(s)
    ensures Trim(s) != [] ==> !IsSpace(Trim(s)[0]) && !IsSpace(Trim(s)[|Trim(s)| - 1])
    ensures exists i, j :: 0 <= i <= j <= |s| && Trim(s) == s[i..j]
  {
    var a := TrimStart(s);
    var i := |s| - |a|;
    assert AllSpace(s[..i]);
    if Trim(s) == [] {
      assert AllSpace(a[0..]);
      assert a == [];
      assert s[..i] == s;
    }
    assert a != [] ==> a[0] == s[i];
    assert Trim(s) == s[i..i + |Trim(s)|];
  }

  /** Neither end is white space. */
  predicate Trimmed(s: string) {
    s == [] || (!IsSpace(s[0]) && !IsSpace(s[|s| - 1]))
  }

  /** `trim()` leaves trimmed text as it is. */
  lemma {:induction false} TrimTrimmed(s: string)
    requires Trimmed(s)
    ensures Trim(s) == s
  {
  }

  predicate NonEmpty(s: string) {
    s != ""
  }

  /** `s.split(sep).map(x => x.trim()).filter(x => x)`: the non-empty
      trimmed pieces. */
  function Pieces(s: string, sep: char): seq<string> {
    Strings.Filter(Strings.Map(Strings.Split(s, sep), Trim), NonEmpty)
  }

  /** Every piece is non-empty, trimmed and free of the separator. */
  lemma {:induction false} PiecesClean(s: string, sep: char)
    ensures var ps := Pieces(s, sep);
      forall k :: 0 <= k < |ps| ==> ps[k] != "" && Trimmed(ps[k]) && sep !in ps[k]
  {
    var pieces := Strings.Split(s, sep);
    var trimmed := Strings.Map(pieces, Trim);
    forall j | 0 <= j < |trimmed|
      ensures Trimmed(trimmed[j]) && sep !in trimmed[j]
    {
      TrimmedPiece(pieces[j], sep);
    }
    FilteredClean(trimmed, sep);
  }

  /** Dropping the empty texts from clean texts leaves non-empty clean
      texts. */
  lemma {:induction false} FilteredClean(ts: seq<string>, sep: char)
    requires forall j :: 0 <= j < |ts| ==> Trimmed(ts[j]) && sep !in ts[j]
    ensures var ps := Strings.Filter(ts, NonEmpty);
      forall k :: 0 <= k < |ps| ==> ps[k] != "" && Trimmed(ps[k]) && sep !in ps[k]
  {
    if ts != [] {
      FilteredClean(ts[1..], sep);
      var rest := Strings.Filter(ts[1..], NonEmpty);
      var ps := Strings.Filter(ts, NonEmpty);
      var head := if NonEmpty(ts[0]) then [ts[0]] else [];
      assert ps == head + rest;
      forall k | 0 <= k < |ps|
        ensures ps[k] != "" && Trimmed(ps[k]) && sep !in ps[k]
      {
        if k >= |head| {
          assert ps[k] == rest[k - |head|];
        }
      }
    }
  }

  /** A trimmed piece of text without the separator has no separator. */
  lemma {:induction false} TrimmedPiece(piece: string, sep: char)
    requires sep !in piece
    ensures Trimmed(Trim(piece)) && sep !in Trim(piece)
  {
    TrimProperties(piece);
    var i, j :| 0 <= i <= j <= |piece| && Trim(piece) == piece[i..j];
    Strings.NotInSlice(piece, sep, i, j);
  }

  /** Pieces that are non-empty, trimmed and free of the separator come
      back, in order, from the text that joins them with it. */
  lemma {:induction false} PiecesRoundTrip(parts: seq<string>, sep: char)
    requires |parts| >= 1
    requires forall k :: 0 <= k < |parts| ==> parts[k] != "" && Trimmed(parts[k]) && sep !in parts[k]
    ensures Pieces(Strings.Join(parts, [sep]), sep) == parts
  {
    Strings.SplitJoin(parts, sep);
    TrimAllKept(parts);
    FilterAllKept(parts);
  }

  lemma {:induction false} TrimAllKept(s: seq<string>)
    requires forall k :: 0 <= k < |s| ==> Trimmed(s[k])
    ensures Strings.Map(s, Trim) == s
  {
    var r := Strings.Map(s, Trim);
    forall k | 0 <= k < |s| ensures r[k] == s[k] {
      TrimTrimmed(s[k]);
    }
  }

  lemma {:induction false} FilterAllKept(s: seq<string>)
    requires forall k :: 0 <= k < |s| ==> s[k] != ""
    ensures Strings.Filter(s, NonEmpty) == s
  {
    if s != [] {
      FilterAllKept(s[1..]);
      assert s == [s[0]] + s[1..];
    }
  }

  /** `s.replace(/\s+/g, rep)`: every maximal run of white space becomes
      `rep`. */
  function ReplaceSpaceRuns(s: string, rep: string): (r: string)
    ensures (forall k :: 0 <= k < |rep| ==> !IsSpace(rep[k])) ==> forall k :: 0 <= k < |r| ==> !IsSpace(r[k])
    decreases |s|
  {
    if s == [] then []
    else if IsSpace(s[0]) then rep + ReplaceSpaceRuns(TrimStart(s), rep)
    else [s[0]] + ReplaceSpaceRuns(s[1..], rep)
  }

  /** Text without white space is left as it is by `ReplaceSpaceRuns`. */
  lemma {:induction false} ReplaceSpaceRunsNoSpace(s: string, rep: string)
    requires forall k :: 0 <= k < |s| ==> !IsSpace(s[k])
    ensures ReplaceSpaceRuns(s, rep) == s
  {
    if s != [] {
      ReplaceSpaceRunsNoSpace(s[1..], rep);
    }
  }

  /** `String.prototype.toLowerCase` on one character, for the ASCII, Latin-1
      and Latin Extended-A letters and the four other upper-case letters
      whose lower-case form falls in those blocks; every other character is
      left unchanged. */
  function LowerChar(c: char): string {
    var n := c as int;
    if 'A' <= c <= 'Z' then [(n + 32) as char]
    else if 0xC0 <= n <= 0xDE && n != 0xD7 then [(n + 32) as char]
    else if n == 0x130 then ['i', '\U{307}']
    else if 0x100 <= n <= 0x137 && n % 2 == 0 then [(n + 1) as char]
    else if 0x139 <= n <= 0x148 && n % 2 == 1 then [(n + 1) as char]
    else if 0x14A <= n <= 0x177 && n % 2 == 0 then [(n + 1) as char]
    else if n == 0x178 then ['\U{FF}']
    else if 0x179 <= n <= 0x17E && n % 2 == 1 then [(n + 1) as char]
    else if n == 0x1E9E then ['\U{DF}']
    else if n == 0x212A then ['k']
    else if n == 0x212B then ['\U{E5}']
    else [c]
  }

  /** `s.toLowerCase()`. */
  function ToLower(s: string): string {
    if s == [] then [] else LowerChar(s[0]) + ToLower(s[1..])
  }

  /** Lower-casing ASCII text changes only the letters A-Z, one for one. */
  lemma {:induction false} ToLowerAscii(s: string)
    requires forall k :: 0 <= k < |s| ==> s[k] as int < 128
    ensures |ToLower(s)| == |s|
    ensures forall k :: 0 <= k < |s| ==>
      ToLower(s)[k] == if 'A' <= s[k] <= 'Z' then (s[k] as int + 32) as char else s[k]
  {
    if s != [] {
      var t := ToLower(s[1..]);
      ToLowerAscii(s[1..]);
      LowerCharAscii(s[0]);
      assert ToLower(s) == LowerChar(s[0]) + t;
      forall k | 0 <= k < |s|
        ensures ToLower(s)[k] == if 'A' <= s[k] <= 'Z' then (s[k] as int + 32) as char else s[k]
      {
        if k > 0 {
          assert ToLower(s)[k] == t[k - 1] && s[1..][k - 1] == s[k];
        }
      }
    }
  }

  lemma {:induction false} LowerCharAscii(c: char)
    requires c as int < 128
    ensures LowerChar(c) == [if 'A' <= c <= 'Z' then (c as int + 32) as char else c]
  {
  }

  /** `String.prototype.toUpperCase` on one character, for ASCII letters
      and the two non-ASCII letters (dotless i and long s) whose upper-case
      form is a single ASCII letter; every other character is left
      unchanged. */
  function UpperChar(c: char): char {
    if 'a' <= c <= 'z' then (c as int - 32) as char
    else if c == '\U{131}' then 'I'
    else if c == '\U{17F}' then 'S'
    else c
  }

  /** `s.toUpperCase()`, character by character as `UpperChar` models it. */
  function ToUpper(s: string): (r: string)
    ensures |r| == |s|
    ensures forall k :: 0 <= k < |s| ==> r[k] == UpperChar(s[k])
  {
    if s == [] then [] else [UpperChar(s[0])] + ToUpper(s[1..])
  }

  function DigitChar(d: nat): char
    requires d < 10
  {
    ('0' as int + d) as char
  }

  predicate IsDecimal(s: string) {
    forall k :: 0 <= k < |s| ==> '0' <= s[k] <= '9'
  }

  /** `n.toString()` for a non-negative integer: its decimal digits. */
  function NatToString(n: nat): (r: string)
    ensures |r| >= 1 && IsDecimal(r)
    ensures r[0] != '0' || n == 0
  {
    if n < 10 then [DigitChar(n)] else NatToString(n / 10) + [DigitChar(n % 10)]
  }

  /** `n.toString()` for an integer. */
  function IntToString(n: int): (r: string)
    ensures |r| >= 1
    ensures n >= 0 ==> IsDecimal(r)
    ensures n < 0 ==> r[0] == '-' && IsDecimal(r[1..])
  {
    if n >= 0 then NatToString(n) else "-" + NatToString(-n)
  }

  /** The value of one digit in the given radix (10 or 16), if it is one. */
  function DigitValue(c: char, radix: nat): Option<nat> {
    if '0' <= c <= '9' then (if c as int - '0' as int < radix then Some(c as int - '0' as int) else None)
    else if radix == 16 && 'a' <= c <= 'f' then Some(c as int - 'a' as int + 10)
    else if radix == 16 && 'A' <= c <= 'F' then Some(c as int - 'A' as int + 10)
    else None
  }

  /** The longest prefix of `s` made of digits of the radix. */
  function DigitPrefix(s: string, radix: nat): (r: string)
    ensures r <= s
    ensures forall k :: 0 <= k < |r| ==> DigitValue(r[k], radix).Some?
    ensures |r| < |s| ==> DigitValue(s[|r|], radix).None?
  {
    if s != [] && DigitValue(s[0], radix).Some? then [s[0]] + DigitPrefix(s[1..], radix) else []
  }

  /** The number written by a string of digits, most significant first. */
  function DigitsValue(s: string, radix: nat): nat
    requires forall k :: 0 <= k < |s| ==> DigitValue(s[k], radix).Some?
  {
    if s == [] then 0
    else DigitsValue(s[..|s| - 1], radix) * radix + DigitValue(s[|s| - 1], radix).value
  }

  /** `parseInt(s)` with no radix: leading white space, an optional sign,
      an optional `0x` prefix selecting radix 16, then the longest run of
      digits; `None` stands for `NaN` (no digit at all). */
  function ParseInt(s: string): Option<int> {
    var t := TrimStart(s);
    var negative := |t| > 0 && t[0] == '-';
    var u := if |t| > 0 && (t[0] == '-' || t[0] == '+') then t[1..] else t;
    var hex := |u| >= 2 && u[0] == '0' && (u[1] == 'x' || u[1] == 'X');
    var radix := if hex then 16 else 10;
    var v := if hex then u[2..] else u;
    var digits := DigitPrefix(v, radix);
    if digits == [] then None
    else
      var value: int := DigitsValue(digits, radix);
      Some(if negative then -value else value)
  }

  /** The decimal digits of `n` read back as `n`. */
  lemma {:induction false} DigitsValueOfNatToString(n: nat)
    ensures forall k :: 0 <= k < |NatToString(n)| ==> DigitValue(NatToString(n)[k], 10).Some?
    ensures DigitsValue(NatToString(n), 10) == n
  {
    if n >= 10 {
      DigitsValueOfNatToString(n / 10);
      var s := NatToString(n);
      assert s[..|s| - 1] == NatToString(n / 10);
    }
  }

  /** A decimal string consists of decimal digits only, so its longest
      digit prefix is all of it. */
  lemma {:induction false} DigitPrefixOfDecimal(s: string)
    requires IsDecimal(s)
    ensures DigitPrefix(s, 10) == s
  {
    if s != [] {
      DigitPrefixOfDecimal(s[1..]);
    }
  }

  /** A decimal numeral without a redundant leading zero parses as its
      value. */
  lemma {:induction false} ParseIntDecimal(s: string)
    requires |s| >= 1 && IsDecimal(s)
    requires s[0] == '0' ==> |s| == 1
    ensures forall k :: 0 <= k < |s| ==> DigitValue(s[k], 10).Some?
    ensures ParseInt(s) == Some(DigitsValue(s, 10) as int)
  {
    assert !IsSpace(s[0]);
    assert TrimStart(s) == s;
    DigitPrefixOfDecimal(s);
  }

  /** `parseInt(n.toString()) === n` for every non-negative integer. */
  lemma {:induction false} ParseIntNatToString(n: nat)
    ensures ParseInt(NatToString(n)) == Some(n)
  {
    var s := NatToString(n);
    ParseIntDecimal(s);
    DigitsValueOfNatToString(n);
  }
}
