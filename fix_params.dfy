/** `fix_params.py`: inserts `await ` before `params;` in every
    `const { … } = params;` that follows white space, in a fixed list of
    route files. The regular expression `(\s+)(const \{ [^}]+ \} = )(params;)`
    is modelled as a match function; `re.sub` as a left-to-right scan that
    resumes after each replaced match. */
module FixParams {
  import opened Wrappers
  import Strings
  import PyStrings
  import FileLoop

  /** `const { ` starts at index `i` of `x`. */
  predicate Lead(x: string, i: nat) {
    i + 8 <= |x| && x[i] == 'c' && x[i + 1] == 'o' && x[i + 2] == 'n' && x[i + 3] == 's'
    && x[i + 4] == 't' && x[i + 5] == ' ' && x[i + 6] == '{' && x[i + 7] == ' '
  }

  /** `} = params;` starts at index `i` of `x`. */
  predicate Tail(x: string, i: nat) {
    i + 11 <= |x| && x[i] == '}' && x[i + 1] == ' ' && x[i + 2] == '=' && x[i + 3] == ' '
    && x[i + 4] == 'p' && x[i + 5] == 'a' && x[i + 6] == 'r' && x[i + 7] == 'a' && x[i + 8] == 'm'
    && x[i + 9] == 's' && x[i + 10] == ';'
  }

  /** The pattern matches at the start of `x` with its `}` at index `k`:
      white space, `const { `, at least one character other than `}`, a
      space, then `} = params;`. */
  predicate IsAwaitMatch(x: string, k: nat) {
    var w := PyStrings.SpaceRun(x);
    1 <= w && Lead(x, w) && w + 10 <= k && Tail(x, k)
    && x[k - 1] == ' ' && forall j :: w + 8 <= j < k ==> x[j] != '}'
  }

  /** The match of the pattern at the start of `x`, by the index of its `}`.
      The `[^}]+` cannot pass a `}`, so the first `}` after `const { ` is
      the only candidate, and the greedy `\s+` gives up nothing. */
  function AwaitMatch(x: string): (r: Option<nat>)
    ensures r.Some? ==> r.value + 11 <= |x|
  {
    var w := PyStrings.SpaceRun(x);
    if w == 0 || !Lead(x, w) then None
    else
      var k := Strings.FirstCharFrom(x, '}', w + 8);
      if w + 10 <= k && k < |x| && x[k - 1] == ' ' && Tail(x, k) then Some(k) else None
  }

  /** What is found is a match. */
  lemma {:induction false} AwaitMatchSound(x: string)
    requires AwaitMatch(x).Some?
    ensures IsAwaitMatch(x, AwaitMatch(x).value)
  {
    Strings.FirstCharFromIsFirst(x, '}', PyStrings.SpaceRun(x) + 8);
  }

  /** Every match is found. */
  lemma {:induction false} AwaitMatchIntro(x: string, k: nat)
    requires IsAwaitMatch(x, k)
    ensures AwaitMatch(x) == Some(k)
  {
    var w := PyStrings.SpaceRun(x);
    assert w != 0 && Lead(x, w);
    Strings.FirstCharFromIs(x, '}', w + 8, k);
    assert k < |x| && Tail(x, k);
  }

  /** The replacement text for the match with its `}` at index `k`: the
      white space and `const { … } = ` as they were, then `await params;`. */
  function Piece(s: string, k: nat): (u: string)
    requires k + 11 <= |s|
    ensures |u| == k + 17
  {
    s[..k + 4] + "await " + s[k + 4..k + 11]
  }

  /** `re.sub(pattern, replacer, s)`: each match keeps its white space and
      destructuring text and gets `await ` before `params;`. */
  function AwaitAll(s: string): string
    decreases |s|
  {
    if s == [] then []
    else
      match AwaitMatch(s)
      case Some(k) => Piece(s, k) + AwaitAll(s[k + 11..])
      case None => [s[0]] + AwaitAll(s[1..])
  }

  /** The pattern matches at index `i` of `s`. */
  predicate MatchAt(s: string, i: nat)
    requires i <= |s|
  {
    AwaitMatch(s[i..]).Some?
  }

  /** The pattern matches nowhere in `t`. */
  predicate NoAwaitMatch(t: string) {
    forall i :: 0 <= i < |t| ==> !MatchAt(t, i)
  }

  /** Text without a match is left as it is. */
  lemma {:induction false} NoMatchUnchanged(s: string)
    requires NoAwaitMatch(s)
    ensures AwaitAll(s) == s
    decreases |s|
  {
    if s != [] {
      assert !MatchAt(s, 0);
      assert s[0..] == s;
      var t := s[1..];
      forall i | 0 <= i < |t| ensures !MatchAt(t, i) {
        assert !MatchAt(s, i + 1);
        Strings.DropDrop(s, 1, i);
      }
      NoMatchUnchanged(t);
    }
  }

  /** Text before the first match is copied unchanged. */
  lemma {:induction false} PrefixUnchanged(s: string, m: nat)
    requires m <= |s| && forall i :: 0 <= i < m ==> !MatchAt(s, i)
    ensures AwaitAll(s) == s[..m] + AwaitAll(s[m..])
    decreases m
  {
    if m > 0 {
      assert AwaitMatch(s).None? by {
        assert !MatchAt(s, 0);
        assert s[0..] == s;
      }
      AwaitAllNoMatch(s);
      var t := s[1..];
      forall i | 0 <= i < m - 1 ensures !MatchAt(t, i) {
        assert !MatchAt(s, i + 1);
        Strings.DropDrop(s, 1, i);
      }
      PrefixUnchanged(t, m - 1);
      Strings.DropDrop(s, 1, m - 1);
      Strings.ConsTakeAppend(s, m, AwaitAll(s[m..]));
    }
  }

  /** The first index at or after `from` where the pattern matches, or
      `|s|`. */
  function FirstAwait(s: string, from: nat): (m: nat)
    requires from <= |s|
    ensures from <= m <= |s|
    ensures m < |s| ==> MatchAt(s, m)
    ensures forall i :: from <= i < m ==> !MatchAt(s, i)
    decreases |s| - from
  {
    if from == |s| || MatchAt(s, from) then from else FirstAwait(s, from + 1)
  }

  /** The replacement text keeps everything up to ` = `, holds one `}`,
      followed by ` = await`, and after that `}` no `c`. */
  lemma {:induction false} PieceChars(s: string, k: nat)
    requires IsAwaitMatch(s, k)
    ensures var u := Piece(s, k);
      (forall j :: 0 <= j < k + 4 ==> u[j] == s[j])
      && (forall j :: 0 <= j < |u| && u[j] == '}' ==> j == k)
      && (forall j :: k < j < |u| ==> u[j] != 'c')
      && u[k + 4] == 'a' && u[|u| - 1] == ';'
  {
    var u := Piece(s, k);
    var w := PyStrings.SpaceRun(s);
    PyStrings.SpaceRunIsMaximal(s);
    assert forall j :: 0 <= j < k + 4 ==> u[j] == s[j];
    assert forall j :: k + 10 <= j < k + 17 ==> u[j] == s[j - 6];
    assert u[k + 4] == 'a' && u[k + 5] == 'w' && u[k + 6] == 'a' && u[k + 7] == 'i' && u[k + 8] == 't' && u[k + 9] == ' ';
  }

  /** No position inside a replaced piece starts a match, whatever follows
      the piece: its only `}` is now followed by ` = await`, and nothing
      after that `}` can start `const { `. */
  lemma {:induction false} PieceHasNoMatch(s: string, k: nat, t: string, i: nat)
    requires IsAwaitMatch(s, k)
    requires |Piece(s, k)| <= |t| && t[..|Piece(s, k)|] == Piece(s, k) && i < |Piece(s, k)|
    ensures !MatchAt(t, i)
  {
    var u := Piece(s, k);
    PieceChars(s, k);
    Strings.PrefixChars(t, u);
    var y := t[i..];
    if AwaitMatch(y).Some? {
      AwaitMatchSound(y);
      PyStrings.SpaceRunIsMaximal(y);
      assert false;
    }
  }

  /** Rewriting copies everything before the first match, at `m` with
      its `}` at `m + km`, and the match up to its ` = `, then writes `a`. */
  lemma {:induction false} RewriteAgrees(s: string, m: nat, km: nat)
    requires m < |s| && AwaitMatch(s[m..]) == Some(km) && forall i :: 0 <= i < m ==> !MatchAt(s, i)
    ensures IsAwaitMatch(s[m..], km)
    ensures var t := AwaitAll(s);
      m + km + 4 < |t| && m + km + 11 <= |s|
      && (forall j :: 0 <= j < m + km + 4 ==> t[j] == s[j]) && t[m + km + 4] == 'a'
  {
    var x := s[m..];
    AwaitMatchSound(x);
    PrefixUnchanged(s, m);
    AwaitAllAtMatch(x, km);
    PieceSplice(s, m, km, AwaitAll(x[km + 11..]), AwaitAll(x), AwaitAll(s));
  }

  /** Without a match at the start the rewriting copies the first
      character and goes on after it. */
  lemma {:induction false} AwaitAllNoMatch(s: string)
    requires s != [] && AwaitMatch(s).None?
    ensures AwaitAll(s) == [s[0]] + AwaitAll(s[1..])
  {
  }

  /** At a match the rewriting writes the piece and goes on after it. */
  lemma {:induction false} AwaitAllAtMatch(x: string, k: nat)
    requires AwaitMatch(x) == Some(k)
    ensures k + 11 <= |x|
    ensures AwaitAll(x) == Piece(x, k) + AwaitAll(x[k + 11..])
  {
    AwaitAllUnfold(x);
  }

  /** One step of the rewriting of a text that is not empty. */
  lemma {:induction false} AwaitAllUnfold(x: string)
    requires x != []
    ensures AwaitAll(x) == match AwaitMatch(x)
      case Some(k) => Piece(x, k) + AwaitAll(x[k + 11..])
      case None => [x[0]] + AwaitAll(x[1..])
  {
  }

  lemma {:induction false} PieceSplice(s: string, m: nat, km: nat, r: string, tx: string, t: string)
    requires m <= |s| && IsAwaitMatch(s[m..], km)
    requires tx == Piece(s[m..], km) + r && t == s[..m] + tx
    ensures m + km + 4 < |t| && m + km + 11 <= |s|
    ensures forall j :: 0 <= j < m + km + 4 ==> t[j] == s[j]
    ensures t[m + km + 4] == 'a'
  {
    var x := s[m..];
    var u := Piece(x, km);
    PieceChars(x, km);
    forall j | 0 <= j < m + km + 4 ensures t[j] == s[j] {
      if j < m {
        assert t[j] == s[..m][j];
      } else {
        assert t[j] == u[j - m] == x[j - m];
      }
    }
    assert t[m + km + 4] == u[km + 4];
  }

  /** A match at `m`, in absolute positions: its `const { ` starts at
      `m + SpaceRun(s[m..])` and its `}` is at `m + km`. */
  lemma {:induction false} MatchFacts(s: string, m: nat, km: nat)
    requires m <= |s| && IsAwaitMatch(s[m..], km)
    ensures var a := m + PyStrings.SpaceRun(s[m..]);
      Lead(s, a) && a + 10 <= m + km && m + km < |s| && s[m + km] == '}'
      && forall j :: a + 8 <= j < m + km ==> s[j] != '}'
  {
    var x := s[m..];
    var wm := PyStrings.SpaceRun(x);
    var a := m + wm;
    assert x[wm] == s[a] && x[wm + 1] == s[a + 1] && x[wm + 2] == s[a + 2] && x[wm + 3] == s[a + 3];
    assert x[wm + 4] == s[a + 4] && x[wm + 5] == s[a + 5] && x[wm + 6] == s[a + 6] && x[wm + 7] == s[a + 7];
    assert s[m + km] == x[km];
    forall j | a + 8 <= j < m + km ensures s[j] != '}' {
      assert s[j] == x[j - m];
    }
  }

  /** The core of the locality argument: a text that agrees with `s` up to
      four characters past the `}` at `bigM` of a match whose `const { `
      starts at `a`, and then has an `a`, matches at its start only where
      `s` itself matches. */
  lemma {:induction false} MatchWithinAgreement(s: string, t: string, a: nat, bigM: nat, bigK: nat)
    requires bigM + 4 < |t| && bigM + 4 <= |s| && a + 10 <= bigM
    requires Lead(s, a) && s[bigM] == '}' && forall j :: a + 8 <= j < bigM ==> s[j] != '}'
    requires forall j :: 0 <= j < bigM + 4 ==> t[j] == s[j]
    requires t[bigM + 4] == 'a'
    requires IsAwaitMatch(t, bigK)
    ensures IsAwaitMatch(s, bigK)
  {
    var w := PyStrings.SpaceRun(t);
    PyStrings.SpaceRunIsMaximal(t);
    assert t[a] == 'c';
    assert w <= a;
    if bigK + 11 <= bigM + 4 {
      PyStrings.SpaceRunAgree(t, s, bigM + 4);
    } else {
      assert false;
    }
  }

  /** A text that agrees with an unmatched `s` up to four characters past
      the `}` of the first match of `s`, and then has an `a`, does not match
      at its start either. */
  lemma {:induction false} AgreementKeepsStartUnmatched(s: string, t: string, m: nat, km: nat)
    requires AwaitMatch(s).None?
    requires m <= |s| && IsAwaitMatch(s[m..], km) && m + km + 4 < |t|
    requires forall j :: 0 <= j < m + km + 4 ==> t[j] == s[j]
    requires t[m + km + 4] == 'a'
    ensures AwaitMatch(t).None?
  {
    MatchFacts(s, m, km);
    if AwaitMatch(t).Some? {
      AwaitMatchSound(t);
      var bigK := AwaitMatch(t).value;
      MatchWithinAgreement(s, t, m + PyStrings.SpaceRun(s[m..]), m + km, bigK);
      AwaitMatchIntro(s, bigK);
      assert false;
    }
  }

  /** If the pattern does not match at the start of `s`, it does not match
      at the start of the rewritten text either. */
  lemma {:induction false} StartStaysUnmatched(s: string)
    requires s != [] && AwaitMatch(s).None?
    ensures AwaitMatch(AwaitAll(s)).None?
  {
    var m := FirstAwait(s, 0);
    if m == |s| {
      assert NoAwaitMatch(s);
      NoMatchUnchanged(s);
    } else {
      StartStaysUnmatchedBefore(s, m);
    }
  }

  /** The same, when the first match is at `m`. */
  lemma {:induction false} StartStaysUnmatchedBefore(s: string, m: nat)
    requires m < |s| && MatchAt(s, m) && forall i :: 0 <= i < m ==> !MatchAt(s, i)
    requires AwaitMatch(s).None?
    ensures AwaitMatch(AwaitAll(s)).None?
  {
    var km := AwaitMatch(s[m..]).value;
    RewriteAgrees(s, m, km);
    AgreementKeepsStartUnmatched(s, AwaitAll(s), m, km);
  }

  /** After the substitution the pattern matches nowhere. */
  lemma {:induction false} AwaitAllLeavesNoMatch(s: string)
    ensures NoAwaitMatch(AwaitAll(s))
    decreases |s|, 1
  {
    if s != [] {
      match AwaitMatch(s)
      case Some(k) => LeavesNoMatchAfterPiece(s, k);
      case None => LeavesNoMatchAfterChar(s);
    }
  }

  /** The case of a match at the start: the piece, then the rewritten rest. */
  lemma {:induction false} LeavesNoMatchAfterPiece(s: string, k: nat)
    requires AwaitMatch(s) == Some(k)
    ensures NoAwaitMatch(AwaitAll(s))
    decreases |s|, 0
  {
    AwaitMatchSound(s);
    AwaitAllAtMatch(s, k);
    var u := Piece(s, k);
    var rest := AwaitAll(s[k + 11..]);
    AwaitAllLeavesNoMatch(s[k + 11..]);
    var t := u + rest;
    assert t[..|u|] == u;
    forall i | 0 <= i < |t| ensures !MatchAt(t, i) {
      if i < |u| {
        PieceHasNoMatch(s, k, t, i);
      } else {
        assert !MatchAt(rest, i - |u|);
        Strings.DropAppend(u, rest, i);
      }
    }
  }

  /** The case of no match at the start: the first character, then the
      rewritten rest. */
  lemma {:induction false} LeavesNoMatchAfterChar(s: string)
    requires s != [] && AwaitMatch(s).None?
    ensures NoAwaitMatch(AwaitAll(s))
    decreases |s|, 0
  {
    var rest := AwaitAll(s[1..]);
    AwaitAllLeavesNoMatch(s[1..]);
    var t := AwaitAll(s);
    assert t == [s[0]] + rest;
    forall i | 0 <= i < |t| ensures !MatchAt(t, i) {
      if i == 0 {
        assert t[0..] == t;
        StartStaysUnmatched(s);
      } else {
        assert !MatchAt(rest, i - 1);
        Strings.DropAppend([s[0]], rest, i);
      }
    }
  }

  /** The substitution is idempotent: a second run changes nothing. */
  lemma {:induction false} AwaitAllIdempotent(s: string)
    ensures AwaitAll(AwaitAll(s)) == AwaitAll(s)
  {
    AwaitAllLeavesNoMatch(s);
    NoMatchUnchanged(AwaitAll(s));
  }

  /** The example the script was written for. */
  lemma {:induction false} AwaitExample()
    ensures AwaitAll("  const { id } = params;") == "  const { id } = await params;"
  {
    var s := "  const { id } = params;";
    ExampleMatch();
    AwaitAllAtMatch(s, 13);
    assert AwaitAll(s[24..]) == [] by {
      assert s[24..] == [];
    }
    ExamplePiece();
  }

  lemma {:induction false} ExamplePiece()
    ensures Piece("  const { id } = params;", 13) == "  const { id } = await params;"
  {
    var s := "  const { id } = params;";
    assert s[..17] == "  const { id } = ";
    assert s[17..24] == "params;";
  }

  lemma {:induction false} ExampleMatch()
    ensures AwaitMatch("  const { id } = params;") == Some(13)
  {
    var s := "  const { id } = params;";
    assert PyStrings.SpaceRunFrom(s, 2) == 2;
    assert PyStrings.SpaceRunFrom(s, 1) == 2;
    assert PyStrings.SpaceRun(s) == 2;
    assert IsAwaitMatch(s, 13);
    AwaitMatchIntro(s, 13);
  }

  /** `fix_params_in_file` on the text of one file: the new text, and
      whether it differs (the file is written only then). */
  function FixParamsInFile(content: string): (r: (string, bool))
    ensures r.0 == AwaitAll(content) && (r.1 <==> r.0 != content)
    ensures NoAwaitMatch(r.0)
  {
    AwaitAllLeavesNoMatch(content);
    var fixedContent := AwaitAll(content);
    (fixedContent, fixedContent != content)
  }

  const FILES_TO_FIX: seq<string> := [
    "src/app/api/services/[slug]/route.ts",
    "src/app/api/projects/[id]/route.ts",
    "src/app/api/blog/[slug]/route.ts",
    "src/app/api/team/department/[department]/route.ts",
    "src/app/api/admin/content-backups/type/[contentType]/route.ts",
    "src/app/api/company-initiatives/[id]/route.ts",
    "src/app/api/comments/[articleId]/route.ts",
    "src/app/api/legal-pages/[slug]/route.ts",
    "src/app/api/site-setting/[key]/route.ts"
  ]

  /** The text transform the main loop applies to each file. */
  function Transform(content: string): string {
    AwaitAll(content)
  }

  /** The script's main loop: every listed file that exists (a key of `fs`,
      relative to the project root) is rewritten when that changes it;
      `fixed` counts the files changed. */
  method FixListedFiles(fs: map<string, string>) returns (out: map<string, string>, fixed: nat)
    ensures out == FileLoop.Rewritten(FILES_TO_FIX, fs, |FILES_TO_FIX|, Transform)
    ensures fixed == FileLoop.ChangedCount(FILES_TO_FIX, fs, |FILES_TO_FIX|, Transform)
  {
    out := fs;
    fixed := 0;
    for i := 0 to |FILES_TO_FIX|
      invariant out == FileLoop.Rewritten(FILES_TO_FIX, fs, i, Transform)
      invariant fixed == FileLoop.ChangedCount(FILES_TO_FIX, fs, i, Transform)
    {
      var fileRel := FILES_TO_FIX[i];
      if fileRel in out {
        var r := FixParamsInFile(out[fileRel]);
        FileLoop.Step(FILES_TO_FIX, fs, i, Transform, out, r.0, r.1);
        if r.1 {
          out := out[fileRel := r.0];
          fixed := fixed + 1;
        }
      }
    }
  }
}
