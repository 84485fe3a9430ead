/** `fix_duplicate_params.py`: drops a `const { … } = await params;` line
    when the line after it opens a `try {` block. A file is modelled by its
    decoded text; the file system by a map from path to text. */
module FixDuplicateParams {
  import Strings
  import FileLoop

  /** The lines of `content` as `readlines()` gives them. */
  function ReadLines(content: string): seq<string>
    decreases |content|
  {
    if content == [] then []
    else
      match Strings.IndexOf(content, "\n")
      case None => [content]
      case Some(i) => [content[..i + 1]] + ReadLines(content[i + 1..])
  }

  /** Joined again the lines give the text back; each ends with its
      newline, except possibly the last, and holds no other newline. */
  lemma {:induction false} ReadLinesProperties(content: string)
    ensures var lines := ReadLines(content);
      Strings.Concat(lines) == content
      && (forall k :: 0 <= k < |lines| ==> lines[k] != [] && '\n' !in lines[k][..|lines[k]| - 1])
      && (forall k :: 0 <= k < |lines| - 1 ==> lines[k][|lines[k]| - 1] == '\n')
    decreases |content|
  {
    if content != [] {
      match Strings.IndexOf(content, "\n")
      case None =>
        NoNewlineBefore(content, |content|);
        assert content[..|content|] == content;
      case Some(i) =>
        NoNewlineBefore(content, i);
        ReadLinesProperties(content[i + 1..]);
        assert content == content[..i + 1] + content[i + 1..];
        var rest := ReadLines(content[i + 1..]);
        assert ReadLines(content) == [content[..i + 1]] + rest;
        assert forall k :: 1 <= k < |rest| + 1 ==> ReadLines(content)[k] == rest[k - 1];
        assert content[..i + 1][..i] == content[..i];
    }
  }

  lemma {:induction false} NoNewlineBefore(s: string, n: nat)
    requires n <= |s| && forall j :: 0 <= j < n ==> !Strings.OccursAt(s, "\n", j)
    ensures '\n' !in s[..n]
  {
    forall j | 0 <= j < n ensures s[j] != '\n' {
      assert !Strings.OccursAt(s, "\n", j);
      assert s[j..j + 1] == [s[j]];
    }
  }

  /** Line `i` is dropped: it holds both `const {` and `} = await params;`,
      and the next line of the original file holds `try {`. */
  predicate Dropped(lines: seq<string>, i: int)
    requires 0 <= i < |lines|
  {
    Strings.Contains(lines[i], "const {") && Strings.Contains(lines[i], "} = await params;")
    && i + 1 < |lines| && Strings.Contains(lines[i + 1], "try {")
  }

  /** The lines among the first `n` that are kept, in order. */
  function KeptUpTo(lines: seq<string>, n: nat): seq<string>
    requires n <= |lines|
  {
    if n == 0 then []
    else KeptUpTo(lines, n - 1) + (if Dropped(lines, n - 1) then [] else [lines[n - 1]])
  }

  /** The indices of those lines. */
  function KeptIndices(lines: seq<string>, n: nat): seq<nat>
    requires n <= |lines|
  {
    if n == 0 then []
    else KeptIndices(lines, n - 1) + (if Dropped(lines, n - 1) then [] else [n - 1])
  }

  /** The output is a subsequence of the input: the kept lines are the
      input lines at strictly increasing indices, unmodified, and an index
      is missing exactly when its line is dropped. */
  lemma {:induction false} KeptIsSubsequence(lines: seq<string>, n: nat)
    requires n <= |lines|
    ensures var idx := KeptIndices(lines, n);
      |idx| == |KeptUpTo(lines, n)|
      && (forall k :: 0 <= k < |idx| ==> idx[k] < n && KeptUpTo(lines, n)[k] == lines[idx[k]])
      && (forall j, k :: 0 <= j < k < |idx| ==> idx[j] < idx[k])
      && (forall i :: 0 <= i < n ==> (i in idx <==> !Dropped(lines, i)))
  {
    if n > 0 {
      KeptIsSubsequence(lines, n - 1);
    }
  }

  /** The last line is never dropped. */
  lemma {:induction false} LastLineKept(lines: seq<string>)
    requires |lines| >= 1
    ensures var kept := KeptUpTo(lines, |lines|);
      |kept| >= 1 && kept[|kept| - 1] == lines[|lines| - 1]
  {
  }

  lemma {:induction false} ConcatAppend(parts: seq<string>, x: string)
    ensures Strings.Concat(parts + [x]) == Strings.Concat(parts) + x
  {
    if parts != [] {
      assert (parts + [x])[1..] == parts[1..] + [x];
      ConcatAppend(parts[1..], x);
    }
  }

  /** Dropping lines shortens the text, and keeping them all leaves it as
      it was. */
  lemma {:induction false} KeptLength(lines: seq<string>, n: nat)
    requires n <= |lines|
    ensures (forall i :: 0 <= i < n ==> !Dropped(lines, i)) ==> KeptUpTo(lines, n) == lines[..n]
    ensures |Strings.Concat(KeptUpTo(lines, n))| <= |Strings.Concat(lines[..n])|
    ensures (exists i :: 0 <= i < n && Dropped(lines, i)) ==>
      |Strings.Concat(KeptUpTo(lines, n))| < |Strings.Concat(lines[..n])|
  {
    if n > 0 {
      KeptLength(lines, n - 1);
      assert lines[..n] == lines[..n - 1] + [lines[n - 1]];
      ConcatAppend(lines[..n - 1], lines[n - 1]);
      ConcatAppend(KeptUpTo(lines, n - 1), lines[n - 1]);
      var whole := Strings.Concat(lines[..n]);
      assert |whole| == |Strings.Concat(lines[..n - 1])| + |lines[n - 1]|;
      if Dropped(lines, n - 1) {
        assert KeptUpTo(lines, n) == KeptUpTo(lines, n - 1);
        assert |lines[n - 1]| >= 7 by {
          var j :| 0 <= j <= |lines[n - 1]| - 7 && Strings.OccursAt(lines[n - 1], "const {", j);
        }
      } else {
        assert KeptUpTo(lines, n) == KeptUpTo(lines, n - 1) + [lines[n - 1]];
        if exists i :: 0 <= i < n && Dropped(lines, i) {
          var i :| 0 <= i < n && Dropped(lines, i);
          assert i < n - 1;
        }
      }
    }
  }

  /** The rewritten text of one file. */
  function FixedContent(content: string): string {
    var lines := ReadLines(content);
    Strings.Concat(KeptUpTo(lines, |lines|))
  }

  /** A file changes exactly when one of its lines is dropped. */
  lemma {:induction false} ChangedIffDropped(content: string)
    ensures var lines := ReadLines(content);
      FixedContent(content) != content <==> exists i :: 0 <= i < |lines| && Dropped(lines, i)
  {
    var lines := ReadLines(content);
    ReadLinesProperties(content);
    KeptLength(lines, |lines|);
    assert lines[..|lines|] == lines;
    if exists i :: 0 <= i < |lines| && Dropped(lines, i) {
      assert |FixedContent(content)| < |content|;
    } else {
      assert KeptUpTo(lines, |lines|) == lines;
    }
  }

  /** `fix_file`: the kept lines joined, and whether that differs from the
      original text. */
  method FixFile(content: string) returns (newContent: string, changed: bool)
    ensures newContent == FixedContent(content)
    ensures changed <==> newContent != content
  {
    var lines := ReadLines(content);
    ReadLinesProperties(content);
    var original := Strings.Concat(lines);
    var newLines: seq<string> := [];
    var skipNext := false;
    for i := 0 to |lines|
      invariant newLines == KeptUpTo(lines, i)
      invariant !skipNext
    {
      if skipNext {
        skipNext := false;
        continue;
      }
      if Strings.Contains(lines[i], "const {") && Strings.Contains(lines[i], "} = await params;") && i + 1 < |lines| {
        if Strings.Contains(lines[i + 1], "try {") {
          continue;
        }
      }
      newLines := newLines + [lines[i]];
    }
    newContent := Strings.Concat(newLines);
    changed := newContent != original;
  }

  /** The script's main loop over every `route.ts` found (`paths`, each
      an existing file): each file is replaced by its fixed text when that
      differs, and `fixed` counts those files. */
  method FixAll(paths: seq<string>, fs: map<string, string>) returns (out: map<string, string>, fixed: nat)
    requires forall k :: 0 <= k < |paths| ==> paths[k] in fs
    ensures out == FileLoop.Rewritten(paths, fs, |paths|, FixedContent)
    ensures fixed == FileLoop.ChangedCount(paths, fs, |paths|, FixedContent)
  {
    out := fs;
    fixed := 0;
    for i := 0 to |paths|
      invariant out == FileLoop.Rewritten(paths, fs, i, FixedContent)
      invariant fixed == FileLoop.ChangedCount(paths, fs, i, FixedContent)
    {
      var p := paths[i];
      var newContent, changed := FixFile(out[p]);
      FileLoop.Step(paths, fs, i, FixedContent, out, newContent, changed);
      if changed {
        out := out[p := newContent];
        fixed := fixed + 1;
      }
    }
  }

  /** Line by line: of two qualifying lines in a row before `try {`, only
      the second goes, since the first is judged by the original next
      line. */
  lemma {:induction false} DecisionReadsOriginalNextLine()
    ensures var lines := ["const { a } = await params;\n", "const { a } = await params;\n", "try {\n"];
      !Dropped(lines, 0) && Dropped(lines, 1) && !Dropped(lines, 2)
  {
    ExampleLines();
  }

  lemma {:induction false} ExampleLines()
    ensures var line := "const { a } = await params;\n";
      Strings.Contains(line, "const {") && Strings.Contains(line, "} = await params;")
      && !Strings.Contains(line, "try {") && Strings.Contains("try {\n", "try {")
  {
    var line := "const { a } = await params;\n";
    assert Strings.OccursAt(line, "const {", 0);
    assert Strings.OccursAt(line, "} = await params;", 10);
    assert Strings.OccursAt("try {\n", "try {", 0);
    ExampleLineHasNoTry();
  }

  lemma {:induction false} ExampleLineHasNoTry()
    ensures !Strings.Contains("const { a } = await params;\n", "try {")
  {
    var line := "const { a } = await params;\n";
    forall j | 0 <= j <= |line| - 5 ensures !Strings.OccursAt(line, "try {", j) {
      assert line[j] != 't' || line[j + 1] != 'r';
      assert line[j..j + 5][0] == line[j] && line[j..j + 5][1] == line[j + 1];
    }
  }
}
