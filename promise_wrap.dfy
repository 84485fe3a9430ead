/** Step 1 of `fix_api_routes.py`: the substitution of
    `(\{ params \}: \{ params: )(\{[^}]+\})( \})` by `\1Promise<\2>\3`,
    which turns the type `{ params: { id: string } }` of a route handler's
    second argument into `{ params: Promise<{ id: string }> }`. The
    pattern is modelled as a match function at the start of a text and
    `re.sub` as a left-to-right scan that resumes after each replaced
    match. */
module PromiseWrap {
  import opened Wrappers
  import Strings

  /** `{ params }: { params: ` starts at index `i` of `x`. */
  predicate Head(x: string, i: nat) {
    i + 22 <= |x|
    && x[i] == '{' && x[i + 1] == ' ' && x[i + 2] == 'p' && x[i + 3] == 'a' && x[i + 4] == 'r'
    && x[i + 5] == 'a' && x[i + 6] == 'm' && x[i + 7] == 's' && x[i + 8] == ' ' && x[i + 9] == '}'
    && x[i + 10] == ':' && x[i + 11] == ' ' && x[i + 12] == '{' && x[i + 13] == ' ' && x[i + 14] == 'p'
    && x[i + 15] == 'a' && x[i + 16] == 'r' && x[i + 17] == 'a' && x[i + 18] == 'm' && x[i + 19] == 's'
    && x[i + 20] == ':' && x[i + 21] == ' '
  }

  /** Two occurrences of `{ params }: { params: ` never overlap: its only
      `}` is at offset 9 and its `{` after offset 0 is at offset 12, where
      a second copy would need ` ` four characters before its `:`. */
  lemma {:induction false} HeadsApart(x: string, a: nat, b: nat)
    requires Head(x, a) && Head(x, b) && a < b
    ensures a + 22 <= b
  {
  }

  /** The pattern matches at the start of `x` with the `}` that closes the
      inner object type at index `k`: the head, `{`, at least one character
      other than `}`, then `} }`. */
  predicate IsWrapMatch(x: string, k: nat) {
    Head(x, 0) && 23 <= |x| && x[22] == '{' && 24 <= k && k + 3 <= |x|
    && x[k] == '}' && x[k + 1] == ' ' && x[k + 2] == '}'
    && forall j :: 23 <= j < k ==> x[j] != '}'
  }

  /** The match of the pattern at the start of `x`, by the index of the
      inner `}`. `[^}]+` cannot pass a `}`, so the first `}` after the inner
      `{` is the only candidate. */
  function WrapMatch(x: string): (r: Option<nat>)
    ensures r.Some? ==> 24 <= r.value && r.value + 3 <= |x|
  {
    if !(Head(x, 0) && 23 <= |x| && x[22] == '{') then None
    else
      var k := Strings.FirstCharFrom(x, '}', 23);
      if 24 <= k && k + 3 <= |x| && x[k + 1] == ' ' && x[k + 2] == '}' then Some(k) else None
  }

  /** What is found is a match. */
  lemma {:induction false} WrapMatchSound(x: string)
    requires WrapMatch(x).Some?
    ensures IsWrapMatch(x, WrapMatch(x).value)
  {
    Strings.FirstCharFromIsFirst(x, '}', 23);
  }

  /** Every match is found. */
  lemma {:induction false} WrapMatchIntro(x: string, k: nat)
    requires IsWrapMatch(x, k)
    ensures WrapMatch(x) == Some(k)
  {
    Strings.FirstCharFromIs(x, '}', 23, k);
  }

  /** The replacement text for the match with its inner `}` at index `k`:
      the head, `Promise<`, the inner object type, `>`, and ` }`. */
  function Piece(s: string, k: nat): (u: string)
    requires 24 <= k && k + 3 <= |s|
    ensures |u| == k + 12
  {
    s[..22] + "Promise<" + s[22..k + 1] + ">" + s[k + 1..k + 3]
  }

  /** `re.sub(param_pattern, r'\1Promise<\2>\3', s)`. */
  function WrapAll(s: string): string
    decreases |s|
  {
    if s == [] then [] else Emitted(s) + WrapAll(s[Consumed(s)..])
  }

  /** What one step of the scan writes: the piece at a match, else the
      first character. */
  function Emitted(s: string): string
    requires s != []
  {
    match WrapMatch(s)
    case Some(k) => Piece(s, k)
    case None => [s[0]]
  }

  /** How far one step of the scan moves: past the match, else by one. */
  function Consumed(s: string): (n: nat)
    requires s != []
    ensures 1 <= n <= |s|
  {
    match WrapMatch(s)
    case Some(k) => k + 3
    case None => 1
  }

  /** At a match the rewriting writes the piece and goes on after it. */
  lemma {:induction false} WrapAllAtMatch(x: string, k: nat)
    requires WrapMatch(x) == Some(k)
    ensures 24 <= k && k + 3 <= |x| && WrapAll(x) == Piece(x, k) + WrapAll(x[k + 3..])
  {
    assert x != [];
    StepAtMatch(x, k);
  }

  lemma {:induction false} StepAtMatch(x: string, k: nat)
    requires x != [] && WrapMatch(x) == Some(k)
    ensures 24 <= k && k + 3 <= |x| && Emitted(x) == Piece(x, k) && Consumed(x) == k + 3
  {
  }

  /** The pattern matches at index `i` of `s`. */
  predicate MatchAt(s: string, i: nat)
    requires i <= |s|
  {
    WrapMatch(s[i..]).Some?
  }

  /** The pattern matches nowhere in `t`. */
  predicate NoWrapMatch(t: string) {
    forall i :: 0 <= i < |t| ==> !MatchAt(t, i)
  }

  /** Text without a match is left as it is. */
  lemma {:induction false} NoMatchUnchanged(s: string)
    requires NoWrapMatch(s)
    ensures WrapAll(s) == s
    decreases |s|
  {
    if s != [] {
      assert !MatchAt(s, 0);
      assert s[0..] == s;
      var t := s[1..];
      forall i | 0 <= i < |t| ensures !MatchAt(t, i) {
        assert !MatchAt(s, i + 1);
        Strings.DropDrop(s, 1, i);
      }
      NoMatchUnchanged(t);
    }
  }

  /** Text before the first match is copied unchanged. */
  lemma {:induction false} PrefixUnchanged(s: string, m: nat)
    requires m <= |s| && forall i :: 0 <= i < m ==> !MatchAt(s, i)
    ensures WrapAll(s) == s[..m] + WrapAll(s[m..])
    decreases m
  {
    if m > 0 {
      assert !MatchAt(s, 0);
      assert s[0..] == s;
      var t := s[1..];
      forall i | 0 <= i < m - 1 ensures !MatchAt(t, i) {
        assert !MatchAt(s, i + 1);
        Strings.DropDrop(s, 1, i);
      }
      PrefixUnchanged(t, m - 1);
      Strings.DropDrop(s, 1, m - 1);
      Strings.ConsTakeAppend(s, m, WrapAll(s[m..]));
      assert WrapAll(s) == [s[0]] + WrapAll(t);
    }
  }

  /** The first index at or after `from` where the pattern matches, or
      `|s|`. */
  function FirstWrap(s: string, from: nat): (m: nat)
    requires from <= |s|
    ensures from <= m <= |s|
    ensures m < |s| ==> MatchAt(s, m)
    ensures forall i :: from <= i < m ==> !MatchAt(s, i)
    decreases |s| - from
  {
    if from == |s| || MatchAt(s, from) then from else FirstWrap(s, from + 1)
  }

  /** The replacement keeps the head, the inner object type and the closing
      ` }`; what it adds is `Promise<` right after the head and `>` right
      after the inner `}`. Its `}` are the head's, the inner one (now at
      `k + 8`) and the last one. */
  lemma {:induction false} PieceChars(s: string, k: nat)
    requires IsWrapMatch(s, k)
    ensures var u := Piece(s, k);
      (forall j :: 0 <= j < 22 ==> u[j] == s[j])
      && (forall j :: 30 <= j < k + 9 ==> u[j] == s[j - 8])
      && (forall j :: 0 <= j < |u| && u[j] == '}' ==> j == 9 || j == k + 8 || j == k + 11)
      && u[22] == 'P' && u[k + 9] == '>' && u[k + 10] == ' ' && u[k + 11] == '}'
  {
    var u := Piece(s, k);
    assert forall j :: 0 <= j < 22 ==> u[j] == s[j];
    assert forall j :: 30 <= j < k + 9 ==> u[j] == s[j - 8];
    assert u[22] == 'P' && u[23] == 'r' && u[24] == 'o' && u[25] == 'm' && u[26] == 'i' && u[27] == 's'
      && u[28] == 'e' && u[29] == '<';
  }

  /** No position inside a replaced piece starts a match, whatever follows
      the piece. */
  lemma {:induction false} PieceHasNoMatch(s: string, k: nat, t: string, i: nat)
    requires IsWrapMatch(s, k)
    requires |Piece(s, k)| <= |t| && t[..|Piece(s, k)|] == Piece(s, k) && i < |Piece(s, k)|
    ensures !MatchAt(t, i)
  {
    var u := Piece(s, k);
    PieceChars(s, k);
    Strings.PrefixChars(t, u);
    var y := t[i..];
    if WrapMatch(y).Some? {
      WrapMatchSound(y);
      assert false;
    }
  }

  /** Rewriting copies everything before the first match, at `m` with its
      inner `}` at `m + km`, and the head of that match, then writes `P`
      where `s` has `{`. */
  lemma {:induction false} RewriteAgrees(s: string, m: nat, km: nat)
    requires m < |s| && WrapMatch(s[m..]) == Some(km) && forall i :: 0 <= i < m ==> !MatchAt(s, i)
    ensures IsWrapMatch(s[m..], km)
    ensures var t := WrapAll(s);
      m + 22 < |t| && m + 23 <= |s|
      && (forall j :: 0 <= j < m + 22 ==> t[j] == s[j]) && t[m + 22] == 'P'
  {
    var x := s[m..];
    WrapMatchSound(x);
    PrefixUnchanged(s, m);
    WrapAllAtMatch(x, km);
    PieceSplice(s, m, km, WrapAll(x[km + 3..]), WrapAll(x), WrapAll(s));
  }

  lemma {:induction false} PieceSplice(s: string, m: nat, km: nat, r: string, tx: string, t: string)
    requires m <= |s| && IsWrapMatch(s[m..], km)
    requires tx == Piece(s[m..], km) + r && t == s[..m] + tx
    ensures m + 22 < |t| && m + 23 <= |s|
    ensures forall j :: 0 <= j < m + 22 ==> t[j] == s[j]
    ensures t[m + 22] == 'P'
  {
    var x := s[m..];
    var u := Piece(x, km);
    PieceChars(x, km);
    forall j | 0 <= j < m + 22 ensures t[j] == s[j] {
      if j < m {
        assert t[j] == s[..m][j];
      } else {
        assert t[j] == u[j - m] == x[j - m];
      }
    }
    assert t[m + 22] == u[22];
  }

  /** The head of a match at `m`, in absolute positions. */
  lemma {:induction false} HeadAt(s: string, m: nat, km: nat)
    requires m <= |s| && IsWrapMatch(s[m..], km)
    ensures Head(s, m)
  {
    var x := s[m..];
    assert forall j :: 0 <= j < 22 ==> x[j] == s[m + j];
  }

  /** A text that agrees with `s` before the `{` of the first match of `s`,
      matches at its start only where `s` does: the match must close before
      the `}` of that head. */
  lemma {:induction false} MatchWithinAgreement(s: string, t: string, m: nat, bigK: nat)
    requires 0 < m && m + 22 <= |t| && m + 22 <= |s| && Head(s, m)
    requires forall j :: 0 <= j < m + 22 ==> t[j] == s[j]
    requires IsWrapMatch(t, bigK)
    ensures IsWrapMatch(s, bigK)
  {
    assert Head(t, m);
    HeadsApart(t, 0, m);
    assert t[m + 9] == '}';
    assert bigK <= m + 9;
  }

  /** A text that agrees with an unmatched `s` before the `{` of its first
      match does not match at its start either. */
  lemma {:induction false} AgreementKeepsStartUnmatched(s: string, t: string, m: nat, km: nat)
    requires WrapMatch(s).None?
    requires 0 < m <= |s| && IsWrapMatch(s[m..], km) && m + 22 <= |t|
    requires forall j :: 0 <= j < m + 22 ==> t[j] == s[j]
    ensures WrapMatch(t).None?
  {
    HeadAt(s, m, km);
    if WrapMatch(t).Some? {
      WrapMatchSound(t);
      var bigK := WrapMatch(t).value;
      MatchWithinAgreement(s, t, m, bigK);
      WrapMatchIntro(s, bigK);
      assert false;
    }
  }

  /** If the pattern does not match at the start of `s`, it does not match
      at the start of the rewritten text either. */
  lemma {:induction false} StartStaysUnmatched(s: string)
    requires s != [] && WrapMatch(s).None?
    ensures WrapMatch(WrapAll(s)).None?
  {
    var m := FirstWrap(s, 0);
    if m == |s| {
      assert NoWrapMatch(s);
      NoMatchUnchanged(s);
    } else {
      StartStaysUnmatchedBefore(s, m);
    }
  }

  /** The same, when the first match is at `m`. */
  lemma {:induction false} StartStaysUnmatchedBefore(s: string, m: nat)
    requires m < |s| && MatchAt(s, m) && forall i :: 0 <= i < m ==> !MatchAt(s, i)
    requires WrapMatch(s).None?
    ensures WrapMatch(WrapAll(s)).None?
  {
    assert s[0..] == s;
    var km := WrapMatch(s[m..]).value;
    RewriteAgrees(s, m, km);
    AgreementKeepsStartUnmatched(s, WrapAll(s), m, km);
  }

  /** After the substitution the pattern matches nowhere: every
      `{ params }: { params: ` is followed by something other than `{`. */
  lemma {:induction false} WrapAllLeavesNoMatch(s: string)
    ensures NoWrapMatch(WrapAll(s))
    decreases |s|, 1
  {
    if s != [] {
      match WrapMatch(s)
      case Some(k) => LeavesNoMatchAfterPiece(s, k);
      case None => LeavesNoMatchAfterChar(s);
    }
  }

  /** The case of a match at the start: the piece, then the rewritten rest. */
  lemma {:induction false} LeavesNoMatchAfterPiece(s: string, k: nat)
    requires WrapMatch(s) == Some(k)
    ensures NoWrapMatch(WrapAll(s))
    decreases |s|, 0
  {
    WrapMatchSound(s);
    WrapAllAtMatch(s, k);
    var u := Piece(s, k);
    var rest := WrapAll(s[k + 3..]);
    WrapAllLeavesNoMatch(s[k + 3..]);
    var t := u + rest;
    assert t[..|u|] == u;
    forall i | 0 <= i < |t| ensures !MatchAt(t, i) {
      if i < |u| {
        PieceHasNoMatch(s, k, t, i);
      } else {
        assert !MatchAt(rest, i - |u|);
        Strings.DropAppend(u, rest, i);
      }
    }
  }

  /** The case of no match at the start: the first character, then the
      rewritten rest. */
  lemma {:induction false} LeavesNoMatchAfterChar(s: string)
    requires s != [] && WrapMatch(s).None?
    ensures NoWrapMatch(WrapAll(s))
    decreases |s|, 0
  {
    var rest := WrapAll(s[1..]);
    WrapAllLeavesNoMatch(s[1..]);
    var t := WrapAll(s);
    assert t == [s[0]] + rest;
    forall i | 0 <= i < |t| ensures !MatchAt(t, i) {
      if i == 0 {
        assert t[0..] == t;
        StartStaysUnmatched(s);
      } else {
        assert !MatchAt(rest, i - 1);
        Strings.DropAppend([s[0]], rest, i);
      }
    }
  }

  /** The substitution is idempotent: a second run changes nothing. */
  lemma {:induction false} WrapAllIdempotent(s: string)
    ensures WrapAll(WrapAll(s)) == WrapAll(s)
  {
    WrapAllLeavesNoMatch(s);
    NoMatchUnchanged(WrapAll(s));
  }

  /** The signature the step was written for. */
  lemma {:induction false} WrapExample()
    ensures WrapAll("{ params }: { params: { id: string } }") == "{ params }: { params: Promise<{ id: string }> }"
  {
    var s := "{ params }: { params: { id: string } }";
    ExampleMatch();
    WrapAllAtMatch(s, 35);
    assert WrapAll(s[38..]) == [] by {
      assert s[38..] == [];
    }
    ExamplePiece();
  }

  lemma {:induction false} ExampleMatch()
    ensures WrapMatch("{ params }: { params: { id: string } }") == Some(35)
  {
    ExampleHead();
    ExampleInner();
    WrapMatchIntro("{ params }: { params: { id: string } }", 35);
  }

  lemma {:induction false} ExampleHead()
    ensures Head("{ params }: { params: { id: string } }", 0)
  {
    var h := "{ params }: { params: ";
    var s := "{ params }: { params: { id: string } }";
    assert s == h + "{ id: string } }";
    HeadLiteral();
    assert forall j :: 0 <= j < 22 ==> s[j] == h[j];
  }

  /** The head written out. */
  lemma {:induction false} HeadLiteral()
    ensures Head("{ params }: { params: ", 0)
  {
    var h := "{ params }: { params: ";
    assert h[0] == '{';
    assert h[1] == ' ';
    assert h[2] == 'p';
    assert h[3] == 'a';
    assert h[4] == 'r';
    assert h[5] == 'a';
    assert h[6] == 'm';
    assert h[7] == 's';
    assert h[8] == ' ';
    assert h[9] == '}';
    assert h[10] == ':';
    assert h[11] == ' ';
    assert h[12] == '{';
    assert h[13] == ' ';
    assert h[14] == 'p';
    assert h[15] == 'a';
    assert h[16] == 'r';
    assert h[17] == 'a';
    assert h[18] == 'm';
    assert h[19] == 's';
    assert h[20] == ':';
    assert h[21] == ' ';
  }

  lemma {:induction false} ExampleInner()
    ensures var s := "{ params }: { params: { id: string } }";
      s[22] == '{' && s[35] == '}' && s[36] == ' ' && s[37] == '}'
      && forall j :: 23 <= j < 35 ==> s[j] != '}'
  {
    var s := "{ params }: { params: { id: string } }";
    assert s[22] == '{';
    assert s[23] == ' ';
    assert s[24] == 'i';
    assert s[25] == 'd';
    assert s[26] == ':';
    assert s[27] == ' ';
    assert s[28] == 's';
    assert s[29] == 't';
    assert s[30] == 'r';
    assert s[31] == 'i';
    assert s[32] == 'n';
    assert s[33] == 'g';
    assert s[34] == ' ';
    assert s[35] == '}';
    assert s[36] == ' ';
    assert s[37] == '}';
  }

  lemma {:induction false} ExamplePiece()
    ensures Piece("{ params }: { params: { id: string } }", 35) == "{ params }: { params: Promise<{ id: string }> }"
  {
    var h, b, e := "{ params }: { params: ", "{ id: string }", " }";
    var s := "{ params }: { params: { id: string } }";
    assert s == h + b + e;
    assert s[..22] == h;
    assert s[22..36] == b;
    assert s[36..38] == e;
    ExampleOutput();
  }

  lemma {:induction false} ExampleOutput()
    ensures "{ params }: { params: " + "Promise<" + "{ id: string }" + ">" + " }"
      == "{ params }: { params: Promise<{ id: string }> }"
  {
  }
}
