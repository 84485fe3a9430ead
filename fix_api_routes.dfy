
/** `fix_api_routes.py`: migrates a route file to the Next.js 15 form in
    which `params` is a promise. Step 1 (module `PromiseWrap`) wraps the
    type of `params` in `Promise<…>`; step 2, modelled here, adds
    `const { n1, n2 } = await params;` at the start of every
    `GET`/`POST`/`PUT`/`DELETE`/`PATCH` handler whose signature destructures
    `{ params }`, unless `await params` already follows the opening brace
    closely. Regular expressions are modelled as match functions and
    `re.finditer` as a left-to-right scan. */
module FixApiRoutes {
  import opened Wrappers
  import Strings
  import PyStrings
  import PromiseWrap
  import FileLoop
  import Scan

  /** The handlers the script looks for, in the order it treats them. */
  const METHODS: seq<string> := ["GET", "POST", "PUT", "DELETE", "PATCH"]

  /** The literal start of the handler pattern for `method`. */
  function HandlerPrefix(verb: string): string {
    "export async function " + verb + "("
  }

  /** `export async function M\([^)]+\{ params \}[^)]*\)\s*\{` matches at
      the start of `x` and ends at `e`: after the prefix come at least one
      character before an occurrence of `{ params }` at `q`, no `)` up to
      the `)` at `c`, then white space up to the `{` at `e - 1`. */
  predicate IsHandlerMatch(x: string, verb: string, c: nat, q: nat, e: nat) {
    var a := |HandlerPrefix(verb)|;
    Strings.StartsWith(x, HandlerPrefix(verb))
    && a < q && q + 10 <= c && c < e <= |x|
    && Strings.OccursAt(x, "{ params }", q)
    && x[c] == ')' && (forall j :: a <= j < c ==> x[j] != ')')
    && (forall j :: c < j < e - 1 ==> PyStrings.IsSpace(x[j])) && x[e - 1] == '{'
  }

  /** The end of the match of the handler pattern at the start of `x`.
      Neither `[^)]` class can pass a `)`, so the `)` is the first one after
      the prefix, and `\s*` must stop at the first character that is not
      white space, which has to be the `{`. */
  function HandlerMatch(x: string, verb: string): (r: Option<nat>)
    ensures r.Some? ==> |HandlerPrefix(verb)| < r.value <= |x|
  {
    var a := |HandlerPrefix(verb)|;
    if !Strings.StartsWith(x, HandlerPrefix(verb)) then None
    else
      var c := Strings.FirstCharFrom(x, ')', a);
      if c == |x| then None
      else
        match Strings.IndexOfFrom(x, "{ params }", a + 1)
        case None => None
        case Some(q) =>
          if c < q + 10 then None
          else
            var b := PyStrings.SpaceRunFrom(x, c + 1);
            if b < |x| && x[b] == '{' then Some(b + 1) else None
  }

  /** What is found is a match. */
  lemma {:induction false} HandlerMatchSound(x: string, verb: string) returns (c: nat, q: nat)
    requires HandlerMatch(x, verb).Some?
    ensures IsHandlerMatch(x, verb, c, q, HandlerMatch(x, verb).value)
  {
    var a := |HandlerPrefix(verb)|;
    c := Strings.FirstCharFrom(x, ')', a);
    q := Strings.IndexOfFrom(x, "{ params }", a + 1).value;
    Strings.FirstCharFromIsFirst(x, ')', a);
    PyStrings.SpaceRunFromIsMaximal(x, c + 1);
  }

  /** Every match is found, with the same end. */
  lemma {:induction false} HandlerMatchIntro(x: string, verb: string, c: nat, q: nat, e: nat)
    requires IsHandlerMatch(x, verb, c, q, e)
    ensures HandlerMatch(x, verb) == Some(e)
  {
    var a := |HandlerPrefix(verb)|;
    Strings.FirstCharFromIs(x, ')', a, c);
    var found := Strings.IndexOfFrom(x, "{ params }", a + 1);
    assert found.Some? && found.value <= q;
    assert !PyStrings.IsSpace(x[e - 1]);
    PyStrings.SpaceRunFromIs(x, c + 1, e - 1);
  }

  /** The handler pattern for `verb` as a match function, by the length of
      its match. */
  function HandlerMatcher(verb: string): string -> Option<nat> {
    x => HandlerMatch(x, verb)
  }

  /** `re.finditer(method_pattern, content)`: the spans, left to right;
      `Scan.FindAll` states that each is a match. */
  function Handlers(s: string, verb: string): (ms: seq<Scan.Span>) {
    Scan.FindAll(s, HandlerMatcher(verb), 0)
  }

  /** No match starts at a position outside the found spans. */
  lemma {:induction false} HandlerGap(s: string, verb: string, i: nat)
    requires i < |s| && !Scan.Covered(Handlers(s, verb), i)
    ensures HandlerMatch(s[i..], verb).None?
  {
    Scan.FindAllComplete(s, HandlerMatcher(verb), 0, i);
    var r := HandlerMatch(s[i..], verb);
    if r.Some? {
      assert Scan.MatchesAt(s, HandlerMatcher(verb), i, r.value);
      assert false;
    }
  }

  /** The spans lie in `s`, in order and without overlap. */
  predicate InOrder(s: string, ms: seq<Scan.Span>) {
    (forall k :: 0 <= k < |ms| ==> ms[k].start < ms[k].end <= |s|)
    && (forall k :: 0 <= k < |ms| - 1 ==> ms[k].end <= ms[k + 1].start)
  }

  lemma {:induction false} HandlersInOrder(s: string, verb: string)
    ensures InOrder(s, Handlers(s, verb))
  {
  }

  /** `{ params }: { params: Promise<{` starts at index `p` of `x`. */
  predicate GroupHead(x: string, p: nat) {
    PromiseWrap.Head(x, p) && p + 31 <= |x|
    && x[p + 22] == 'P' && x[p + 23] == 'r' && x[p + 24] == 'o' && x[p + 25] == 'm'
    && x[p + 26] == 'i' && x[p + 27] == 's' && x[p + 28] == 'e' && x[p + 29] == '<' && x[p + 30] == '{'
  }

  /** `\{ params \}: \{ params: Promise<\{([^}]+)\}>` matches at index `p`
      of `x`, by the index of the `}` that ends the group: the group is
      the text from `p + 31` up to the first `}`, which must not be empty
      and must be followed by `>`. */
  function GroupAt(x: string, p: nat): (r: Option<nat>)
    requires p <= |x|
    ensures r.Some? ==> p + 32 <= r.value && r.value + 2 <= |x|
  {
    if !GroupHead(x, p) then None
    else
      var k := Strings.FirstCharFrom(x, '}', p + 31);
      if p + 32 <= k && k + 1 < |x| && x[k + 1] == '>' then Some(k) else None
  }

  /** `re.search` for that pattern at or after `from`: the leftmost
      match, as the index where it starts and the index of its `}`. */
  function SearchGroup(x: string, from: nat): (r: Option<(nat, nat)>)
    requires from <= |x|
    ensures r.Some? ==> from <= r.value.0 <= |x| && GroupAt(x, r.value.0) == Some(r.value.1)
    ensures r.Some? ==> forall p :: from <= p < r.value.0 ==> GroupAt(x, p).None?
    ensures r.None? ==> forall p :: from <= p <= |x| ==> GroupAt(x, p).None?
    decreases |x| - from
  {
    match GroupAt(x, from)
    case Some(k) => Some((from, k))
    case None => if from == |x| then None else SearchGroup(x, from + 1)
  }

  /** `params_match.group(1)`: the text between `Promise<{` and `}>`. */
  function ParamsGroup(sig: string): Option<string> {
    match SearchGroup(sig, 0)
    case Some((p, k)) => Some(sig[p + 31..k])
    case None => None
  }

  /** The name declared by one `name: type` entry: the text before its
      first `:`, stripped. */
  function ParamName(part: string): string {
    PyStrings.Strip(Strings.Split(part, ':')[0])
  }

  /** The name holds no `:` and no white space at either end. */
  lemma {:induction false} ParamNameClean(part: string)
    ensures ':' !in ParamName(part) && PyStrings.Trimmed(ParamName(part))
  {
    var before := Strings.Split(part, ':')[0];
    PyStrings.StripSlice(before);
    var i := |before| - |PyStrings.LStrip(before)|;
    Strings.NotInSlice(before, ':', i, i + |ParamName(part)|);
  }

  /** The name holds no character the entry does not hold. */
  lemma {:induction false} ParamNameAvoids(part: string, c: char)
    requires c !in part
    ensures c !in ParamName(part)
  {
    var before := Strings.Split(part, ':')[0];
    Strings.SplitFirstPiece(part, ':');
    Strings.NotInSlice(part, c, 0, |before|);
    assert before == part[0..|before|];
    PyStrings.StripSlice(before);
    var i := |before| - |PyStrings.LStrip(before)|;
    Strings.NotInSlice(before, c, i, i + |ParamName(part)|);
  }

  /** `[p.split(':')[0].strip() for p in params_content.split(',')]`, where
      `params_content` is the group stripped: one name per comma-separated
      entry, in order, none holding `,` or `:` or white space at its ends. */
  function ParamNames(group: string): (names: seq<string>)
    ensures var entries := Strings.Split(PyStrings.Strip(group), ',');
      |names| == |entries| && forall k :: 0 <= k < |names| ==> names[k] == ParamName(entries[k])
  {
    Strings.Map(Strings.Split(PyStrings.Strip(group), ','), ParamName)
  }

  /** No name holds `,` or `:` or white space at its ends. */
  lemma {:induction false} ParamNamesClean(group: string)
    ensures var names := ParamNames(group);
      forall k :: 0 <= k < |names| ==> ',' !in names[k] && ':' !in names[k] && PyStrings.Trimmed(names[k])
  {
    var entries := Strings.Split(PyStrings.Strip(group), ',');
    var names := ParamNames(group);
    forall k | 0 <= k < |names| ensures ',' !in names[k] && ':' !in names[k] && PyStrings.Trimmed(names[k]) {
      ParamNameClean(entries[k]);
      ParamNameAvoids(entries[k], ',');
    }
  }

  /** A name as it may appear in a signature: non-empty, with no `,` or
      `:` and no white space at its ends. */
  predicate CleanName(n: string) {
    n != [] && ',' !in n && ':' !in n && PyStrings.Trimmed(n)
  }

  /** The entries `name: type` of a parameter group. */
  function Entries(ns: seq<string>, ts: seq<string>): (es: seq<string>)
    requires |ns| == |ts|
    ensures |es| == |ns| && forall k :: 0 <= k < |es| ==> es[k] == ns[k] + ": " + ts[k]
  {
    if ns == [] then [] else [ns[0] + ": " + ts[0]] + Entries(ns[1..], ts[1..])
  }

  /** The name of one entry, with or without the space after the comma. */
  lemma {:induction false} EntryName(n: string, t: string, lead: string)
    requires CleanName(n) && (lead == "" || lead == " ")
    ensures ParamName(lead + (n + ": " + t)) == n
  {
    assert lead + (n + ": " + t) == (lead + n) + [':'] + (" " + t);
    Strings.SplitBeforeSep(lead + n, ':', " " + t);
    PyStrings.StripTrimmed(n);
    if lead == "" {
      assert lead + n == n;
    }
  }

  /** Names read back from a group written as `{ n1: t1, n2: t2 }`: the
      names come back in order, provided they are clean, no type holds a
      comma and the last type ends in a character that is not a space. */
  lemma {:induction false} ParamNamesOfEntries(ns: seq<string>, ts: seq<string>)
    requires |ns| == |ts| >= 1
    requires forall k :: 0 <= k < |ns| ==> CleanName(ns[k]) && ',' !in ts[k]
    requires ts[|ts| - 1] != [] && !PyStrings.IsSpace(ts[|ts| - 1][|ts[|ts| - 1]| - 1])
    ensures ParamNames(" " + Strings.Join(Entries(ns, ts), ", ") + " ") == ns
  {
    var es := Entries(ns, ts);
    var sp := Strings.SpacedAfterFirst(es);
    SpacedEntries(ns, ts);
    GroupPieces(ns, ts);
    NamesOfPieces(" " + Strings.Join(es, ", ") + " ", sp, ns);
  }

  /** The group splits into the entries, each but the first after a space. */
  lemma {:induction false} GroupPieces(ns: seq<string>, ts: seq<string>)
    requires |ns| == |ts| >= 1
    requires forall k :: 0 <= k < |ns| ==> CleanName(ns[k]) && ',' !in ts[k]
    requires ts[|ts| - 1] != [] && !PyStrings.IsSpace(ts[|ts| - 1][|ts[|ts| - 1]| - 1])
    ensures var es := Entries(ns, ts);
      Strings.Split(PyStrings.Strip(" " + Strings.Join(es, ", ") + " "), ',') == Strings.SpacedAfterFirst(es)
  {
    var es := Entries(ns, ts);
    var d := Strings.Join(es, ", ");
    EntriesTrimmed(ns, ts);
    PyStrings.StripTrimmed(d);
    var sp := Strings.SpacedAfterFirst(es);
    Strings.JoinWithSpace(es, ',');
    SpacedEntries(ns, ts);
    Strings.SplitJoin(sp, ',');
  }

  lemma {:induction false} NamesOfPieces(g: string, sp: seq<string>, ns: seq<string>)
    requires Strings.Split(PyStrings.Strip(g), ',') == sp && |sp| == |ns|
    requires forall k :: 0 <= k < |sp| ==> ParamName(sp[k]) == ns[k]
    ensures ParamNames(g) == ns
  {
  }

  /** The joined entries are non-empty and trimmed. */
  lemma {:induction false} EntriesTrimmed(ns: seq<string>, ts: seq<string>)
    requires |ns| == |ts| >= 1 && CleanName(ns[0])
    requires ts[|ts| - 1] != [] && !PyStrings.IsSpace(ts[|ts| - 1][|ts[|ts| - 1]| - 1])
    ensures var d := Strings.Join(Entries(ns, ts), ", "); d != [] && PyStrings.Trimmed(d)
  {
    var es := Entries(ns, ts);
    var last := |es| - 1;
    assert es[last] == ns[last] + (": " + ts[last]);
    Strings.JoinFirst(es, ", ");
    Strings.JoinLast(es, ", ");
  }

  /** The pieces the comma split yields, and the name each gives. */
  lemma {:induction false} SpacedEntries(ns: seq<string>, ts: seq<string>)
    requires |ns| == |ts| >= 1
    requires forall k :: 0 <= k < |ns| ==> CleanName(ns[k]) && ',' !in ts[k]
    ensures var sp := Strings.SpacedAfterFirst(Entries(ns, ts));
      forall k :: 0 <= k < |sp| ==> ',' !in sp[k] && ParamName(sp[k]) == ns[k]
  {
    var sp := Strings.SpacedAfterFirst(Entries(ns, ts));
    forall k | 0 <= k < |sp| ensures ',' !in sp[k] && ParamName(sp[k]) == ns[k] {
      var lead := if k == 0 then "" else " ";
      assert sp[k] == lead + (ns[k] + ": " + ts[k]);
      EntryName(ns[k], ts[k], lead);
    }
  }

  /** The line inserted after a handler's opening brace. */
  function AwaitLine(names: seq<string>): string {
    "\n    const { " + Strings.Join(names, ", ") + " } = await params;"
  }

  function Min(a: int, b: int): int {
    if a <= b then a else b
  }

  /** `'await params' in content[brace_pos:brace_pos + 200]`. */
  predicate Guarded(c: string, b: nat)
    requires b <= |c|
  {
    Strings.Contains(c[b..Min(b + 200, |c|)], "await params")
  }

  /** The treatment of one handler match `m` of `orig` when the text is
      `cur`: the signature is read from `orig`, the guard and the insertion
      from `cur`. Only text after the brace can change. */
  function Process(cur: string, orig: string, m: Scan.Span): (r: string)
    requires m.start <= m.end <= |orig| && m.end <= |cur|
    ensures |cur| <= |r| && r[..m.end] == cur[..m.end]
  {
    match ParamsGroup(orig[m.start..m.end])
    case None => cur
    case Some(g) =>
      if Guarded(cur, m.end) then cur else Insert(cur, m.end, AwaitLine(ParamNames(g)))
  }

  /** `content[:brace_pos] + await_line + content[brace_pos:]`. */
  function Insert(c: string, b: nat, line: string): (r: string)
    requires b <= |c|
    ensures |r| == |c| + |line| && r[..b] == c[..b]
    ensures r[b..b + |line|] == line && r[b + |line|..] == c[b..]
  {
    c[..b] + line + c[b..]
  }

  /** The text after the matches from the last down to the `j`-th have
      been treated. Text before the brace of the `j`-th match is still the
      original. */
  function Processed(orig: string, ms: seq<Scan.Span>, j: nat): (r: string)
    requires j <= |ms| && InOrder(orig, ms)
    ensures |orig| <= |r|
    ensures j < |ms| ==> r[..ms[j].end] == orig[..ms[j].end]
    decreases |ms| - j
  {
    if j == |ms| then orig
    else
      var before := Processed(orig, ms, j + 1);
      var kept := if j + 1 < |ms| then ms[j + 1].end else |orig|;
      Strings.PrefixShorter(before, orig, ms[j].end, kept);
      Process(before, orig, ms[j])
  }

  /** Processing the matches last to first never moves a match that is
      still to be treated: when the `j`-th is treated, the text up to its
      brace is exactly that of the text the matches were found in, so its
      brace is still at `ms[j].end`. */
  lemma {:induction false} Unshifted(orig: string, ms: seq<Scan.Span>, j: nat)
    requires j < |ms| && InOrder(orig, ms)
    ensures var cur := Processed(orig, ms, j + 1);
      ms[j].end <= |cur| && cur[..ms[j].end] == orig[..ms[j].end]
  {
    if j + 1 < |ms| {
      Strings.PrefixShorter(Processed(orig, ms, j + 1), orig, ms[j].end, ms[j + 1].end);
    }
  }

  /** The loop over the matches of one verb. */
  function ProcessVerb(c: string, verb: string): string {
    var ms := Handlers(c, verb);
    HandlersInOrder(c, verb);
    Processed(c, ms, 0)
  }

  /** The text after the first `n` verbs have been treated. */
  function ProcessVerbs(c: string, n: nat): string
    requires n <= |METHODS|
  {
    if n == 0 then c else ProcessVerb(ProcessVerbs(c, n - 1), METHODS[n - 1])
  }

  /** The text `fix_route_file` writes back (or leaves). */
  function FixedRoute(content: string): string {
    ProcessVerbs(PromiseWrap.WrapAll(content), |METHODS|)
  }

  /** `fix_route_file` on the text of one file: the new text and whether
      it differs from the old one, which is when the file is written. */
  method FixRouteFile(content: string) returns (newContent: string, changed: bool)
    ensures newContent == FixedRoute(content)
    ensures changed <==> newContent != content
  {
    var c := PromiseWrap.WrapAll(content);
    ghost var wrapped := c;
    for i := 0 to |METHODS|
      invariant c == ProcessVerbs(wrapped, i)
    {
      c := FixVerb(c, METHODS[i]);
    }
    newContent := c;
    changed := newContent != content;
  }

  /** The loop over the matches of one verb, last to first. */
  method FixVerb(content: string, verb: string) returns (c: string)
    ensures c == ProcessVerb(content, verb)
  {
    c := content;
    var matches := Handlers(content, verb);
    HandlersInOrder(content, verb);
    var j: nat := |matches|;
    while j > 0
      invariant j <= |matches|
      invariant c == Processed(content, matches, j)
    {
      j := j - 1;
      c := FixMatch(c, content, matches[j]);
      ProcessedStep(content, matches, j, c);
    }
    assert c == Processed(content, matches, 0);
  }

  lemma {:induction false} ProcessedStep(orig: string, ms: seq<Scan.Span>, j: nat, c: string)
    requires j < |ms| && InOrder(orig, ms)
    requires ms[j].end <= |Processed(orig, ms, j + 1)|
    requires c == Process(Processed(orig, ms, j + 1), orig, ms[j])
    ensures c == Processed(orig, ms, j)
  {
  }

  /** The body of that loop for one match `m` of `orig`, on the current
      text `cur`. */
  method FixMatch(cur: string, orig: string, m: Scan.Span) returns (c: string)
    requires m.start <= m.end <= |orig| && m.end <= |cur|
    ensures c == Process(cur, orig, m)
  {
    c := cur;
    var sigText := orig[m.start..m.end];
    var paramsMatch := ParamsGroup(sigText);
    ProcessCases(cur, orig, m, paramsMatch);
    if paramsMatch.Some? {
      var paramNames := ParamNames(paramsMatch.value);
      var bracePos := m.end;
      if !Guarded(c, bracePos) {
        c := Insert(c, bracePos, AwaitLine(paramNames));
      }
    }
  }

  /** The three outcomes of `Process`, by the signature's parameter group
      and the guard. */
  lemma {:induction false} ProcessCases(cur: string, orig: string, m: Scan.Span, g: Option<string>)
    requires m.start <= m.end <= |orig| && m.end <= |cur|
    requires g == ParamsGroup(orig[m.start..m.end])
    ensures g.None? ==> Process(cur, orig, m) == cur
    ensures g.Some? && Guarded(cur, m.end) ==> Process(cur, orig, m) == cur
    ensures g.Some? && !Guarded(cur, m.end) ==> Process(cur, orig, m) == Insert(cur, m.end, AwaitLine(ParamNames(g.value)))
  {
  }

  /** `await params` sits in the inserted line right after the names and
      ` } = `. */
  lemma {:induction false} AwaitLineHasAwait(names: seq<string>)
    ensures var n := |Strings.Join(names, ", ")|;
      |AwaitLine(names)| == n + 31 && Strings.OccursAt(AwaitLine(names), "await params", n + 18)
  {
    var joined := Strings.Join(names, ", ");
    var n := |joined|;
    var line := AwaitLine(names);
    var tail := " } = await params;";
    assert line == "\n    const { " + joined + tail;
    assert line[n + 18..n + 30] == tail[5..17];
  }

  /** After an insertion the guard of the same brace sees the inserted
      `await params`, as long as the names take at most 170 characters. */
  lemma {:induction false} InsertionGuards(c: string, b: nat, names: seq<string>)
    requires b <= |c| && |Strings.Join(names, ", ")| <= 170
    ensures Guarded(Insert(c, b, AwaitLine(names)), b)
  {
    var line := AwaitLine(names);
    var n := |Strings.Join(names, ", ")|;
    AwaitLineHasAwait(names);
    var r := Insert(c, b, line);
    var window := r[b..Min(b + 200, |r|)];
    forall j | n + 18 <= j < n + 30 ensures window[j] == line[j] {
      assert window[j] == r[b + j];
      assert r[b + j] == r[b..b + |line|][j];
    }
    assert window[n + 18..n + 30] == line[n + 18..n + 30];
    assert Strings.OccursAt(window, "await params", n + 18);
  }

  /** Treating the same match a second time changes nothing, when the
      names take at most 170 characters: either the first time inserted
      the line, which the guard then sees, or it left the text as it was. */
  lemma {:induction false} ProcessTwice(cur: string, orig: string, m: Scan.Span)
    requires m.start <= m.end <= |orig| && m.end <= |cur|
    requires match ParamsGroup(orig[m.start..m.end])
      case Some(g) => |Strings.Join(ParamNames(g), ", ")| <= 170
      case None => true
    ensures Process(Process(cur, orig, m), orig, m) == Process(cur, orig, m)
  {
    match ParamsGroup(orig[m.start..m.end])
    case None =>
    case Some(g) =>
      if !Guarded(cur, m.end) {
        InsertionGuards(cur, m.end, ParamNames(g));
      }
  }

  /** Step 2 reads back what step 1 wrote: in a wrapped signature the
      `Promise<{…}>` pattern matches at the head, and its group is the
      text of the inner object type between its braces. */
  lemma {:induction false} WrappedGroup(s: string, k: nat)
    requires PromiseWrap.IsWrapMatch(s, k)
    ensures var u := PromiseWrap.Piece(s, k);
      GroupAt(u, 0) == Some(k + 8) && u[31..k + 8] == s[23..k]
  {
    var u := PromiseWrap.Piece(s, k);
    PromiseWrap.PieceChars(s, k);
    PromiseChars(s, k);
    assert GroupHead(u, 0);
    forall j | 31 <= j < k + 8 ensures u[j] != '}' {
      assert u[j] == s[j - 8];
    }
    Strings.FirstCharFromIs(u, '}', 31, k + 8);
    assert u[31..k + 8] == s[23..k] by {
      assert forall j :: 31 <= j < k + 8 ==> u[j] == s[j - 8];
    }
  }

  /** The characters of `Promise<` in a piece. */
  lemma {:induction false} PromiseChars(s: string, k: nat)
    requires PromiseWrap.IsWrapMatch(s, k)
    ensures var u := PromiseWrap.Piece(s, k);
      u[22] == 'P' && u[23] == 'r' && u[24] == 'o' && u[25] == 'm' && u[26] == 'i' && u[27] == 's'
      && u[28] == 'e' && u[29] == '<' && u[30] == '{'
  {
    var u := PromiseWrap.Piece(s, k);
    assert u[22..30] == "Promise<";
    assert u[30] == s[22];
  }

  /** `main`: every `route.ts` found (`paths`, each an existing file) is
      replaced by its fixed text when that differs, and `fixed` counts
      those files. */
  method FixRoutes(paths: seq<string>, fs: map<string, string>) returns (out: map<string, string>, fixed: nat)
    requires forall k :: 0 <= k < |paths| ==> paths[k] in fs
    ensures out == FileLoop.Rewritten(paths, fs, |paths|, FixedRoute)
    ensures fixed == FileLoop.ChangedCount(paths, fs, |paths|, FixedRoute)
  {
    out := fs;
    fixed := 0;
    for i := 0 to |paths|
      invariant out == FileLoop.Rewritten(paths, fs, i, FixedRoute)
      invariant fixed == FileLoop.ChangedCount(paths, fs, i, FixedRoute)
    {
      var p := paths[i];
      var newContent, changed := FixRouteFile(out[p]);
      FileLoop.Step(paths, fs, i, FixedRoute, out, newContent, changed);
      if changed {
        out := out[p := newContent];
        fixed := fixed + 1;
      }
    }
  }
}
