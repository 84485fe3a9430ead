/** The Python string notions the migration scripts rely on: the white
    space of `str.isspace()` (which is also what `\s` matches in a `str`
    regular expression) and `str.strip()`. */
module PyStrings {

  /** `c.isspace()` in Python 3. */
  predicate IsSpace(c: char) {
    var n := c as int;
    (9 <= n <= 13) || (0x1C <= n <= 0x20) || n == 0x85 || n == 0xA0 || n == 0x1680
    || (0x2000 <= n <= 0x200A) || n == 0x2028 || n == 0x2029 || n == 0x202F || n == 0x205F || n == 0x3000
  }

  /** `s.lstrip()`. */
  function LStrip(s: string): (r: string)
    ensures |r| <= |s| && r == s[|s| - |r|..]
    ensures r == [] || !IsSpace(r[0])
    ensures forall k :: 0 <= k < |s| - |r| ==> IsSpace(s[k])
  {
    if s != [] && IsSpace(s[0]) then LStrip(s[1..]) else s
  }

  /** `s.rstrip()`. */
  function RStrip(s: string): (r: string)
    ensures |r| <= |s| && r == s[..|r|]
    ensures r == [] || !IsSpace(r[|r| - 1])
    ensures forall k :: |r| <= k < |s| ==> IsSpace(s[k])
  {
    if s != [] && IsSpace(s[|s| - 1]) then RStrip(s[..|s| - 1]) else s
  }

  /** `s.strip()`. */
  function Strip(s: string): string {
    RStrip(LStrip(s))
  }

  /** No white space at either end. */
  predicate Trimmed(x: string) {
    x == [] || (!IsSpace(x[0]) && !IsSpace(x[|x| - 1]))
  }

  /** `strip()` cuts a slice out of `s` with no white space at its ends. */
  lemma {:induction false} StripSlice(s: string)
    ensures var i := |s| - |LStrip(s)|;
      i + |Strip(s)| <= |s| && Strip(s) == s[i..i + |Strip(s)|] && Trimmed(Strip(s))
  {
    StripCut(s);
    StripEnds(s);
  }

  lemma {:induction false} StripCut(s: string)
    ensures var i := |s| - |LStrip(s)|;
      i + |Strip(s)| <= |s| && Strip(s) == s[i..i + |Strip(s)|]
  {
    var l := LStrip(s);
    var r := RStrip(l);
    var i := |s| - |l|;
    assert l == s[i..] && r == l[..|r|];
  }

  lemma {:induction false} StripEnds(s: string)
    ensures Trimmed(Strip(s))
  {
    var l := LStrip(s);
    var r := RStrip(l);
    if r != [] {
      assert r[0] == l[0];
    }
  }

  /** A trimmed text survives `strip()`, also with one space around it. */
  lemma {:induction false} StripTrimmed(x: string)
    requires x != [] && Trimmed(x)
    ensures Strip(x) == x && Strip(" " + x) == x && Strip(" " + x + " ") == x
  {
    assert (" " + x)[1..] == x;
    assert (" " + x + " ")[1..] == x + " ";
    assert (x + " ")[..|x|] == x;
  }

  /** The end of the run of white space (`\s` in a Python `str` pattern)
      that starts at index `i` of `x`. */
  function SpaceRunFrom(x: string, i: nat): (w: nat)
    requires i <= |x|
    ensures i <= w <= |x|
    decreases |x| - i
  {
    if i < |x| && IsSpace(x[i]) then SpaceRunFrom(x, i + 1) else i
  }

  /** The length of the leading run of white space. */
  function SpaceRun(x: string): (w: nat)
    ensures w <= |x|
  {
    SpaceRunFrom(x, 0)
  }

  /** The run is white space and is followed by a character that is not. */
  /** The run from `i` ends at the first character that is not white
      space. */
  lemma {:induction false} SpaceRunFromIs(x: string, i: nat, e: nat)
    requires i <= e < |x| && !IsSpace(x[e]) && forall j :: i <= j < e ==> IsSpace(x[j])
    ensures SpaceRunFrom(x, i) == e
    decreases e - i
  {
    if i < e {
      SpaceRunFromIs(x, i + 1, e);
    }
  }

  lemma {:induction false} SpaceRunFromIsMaximal(x: string, i: nat)
    requires i <= |x|
    ensures forall j :: i <= j < SpaceRunFrom(x, i) ==> IsSpace(x[j])
    ensures SpaceRunFrom(x, i) < |x| ==> !IsSpace(x[SpaceRunFrom(x, i)])
    decreases |x| - i
  {
    if i < |x| && IsSpace(x[i]) {
      SpaceRunFromIsMaximal(x, i + 1);
    }
  }

  lemma {:induction false} SpaceRunIsMaximal(x: string)
    ensures forall j :: 0 <= j < SpaceRun(x) ==> IsSpace(x[j])
    ensures SpaceRun(x) < |x| ==> !IsSpace(x[SpaceRun(x)])
  {
    SpaceRunFromIsMaximal(x, 0);
  }

  /** Two strings that agree beyond their leading white space have the same
      leading white space. */
  lemma {:induction false} SpaceRunAgree(x: string, y: string, n: nat)
    requires n <= |x| && n <= |y| && SpaceRun(x) < n
    requires forall j :: 0 <= j < n ==> x[j] == y[j]
    ensures SpaceRun(y) == SpaceRun(x)
  {
    SpaceRunIsMaximal(x);
    SpaceRunIsMaximal(y);
  }
}
