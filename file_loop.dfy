/** The loop the three maintenance scripts share: visit a list of paths
    and replace the text of each existing file by its fixed text when that
    changes it. A file system is a map from path to decoded text. */
module FileLoop {
  /** The files after the first `n` paths have been visited; a path with
      no file is skipped, and a path met again is fixed again. */
  function Rewritten(paths: seq<string>, fs: map<string, string>, n: nat, fix: string -> string): (r: map<string, string>)
    requires n <= |paths|
    ensures r.Keys == fs.Keys
  {
    if n == 0 then fs
    else
      var before := Rewritten(paths, fs, n - 1, fix);
      var p := paths[n - 1];
      if p in before then before[p := fix(before[p])] else before
  }

  /** How many of those visits changed a file. */
  function ChangedCount(paths: seq<string>, fs: map<string, string>, n: nat, fix: string -> string): nat
    requires n <= |paths|
  {
    if n == 0 then 0
    else
      var before := Rewritten(paths, fs, n - 1, fix);
      var p := paths[n - 1];
      ChangedCount(paths, fs, n - 1, fix) + (if p in before && fix(before[p]) != before[p] then 1 else 0)
  }

  /** One more visit, given the fixed text and whether it differs. */
  lemma {:induction false} Step(paths: seq<string>, fs: map<string, string>, n: nat, fix: string -> string,
             files: map<string, string>, newContent: string, changed: bool)
    requires n < |paths| && files == Rewritten(paths, fs, n, fix) && paths[n] in files
    requires newContent == fix(files[paths[n]]) && (changed <==> newContent != files[paths[n]])
    ensures Rewritten(paths, fs, n + 1, fix) == if changed then files[paths[n] := newContent] else files
    ensures ChangedCount(paths, fs, n + 1, fix) == ChangedCount(paths, fs, n, fix) + if changed then 1 else 0
  {
    if !changed {
      assert files == files[paths[n] := newContent];
    }
  }

  predicate Distinct(paths: seq<string>) {
    forall j, k :: 0 <= j < k < |paths| ==> paths[j] != paths[k]
  }

  /** A path not yet visited still holds its original text. */
  lemma {:induction false} RewrittenUntouched(paths: seq<string>, fs: map<string, string>, n: nat, k: nat, fix: string -> string)
    requires n <= k < |paths| && Distinct(paths)
    ensures paths[k] in fs ==> Rewritten(paths, fs, n, fix)[paths[k]] == fs[paths[k]]
  {
    if n > 0 {
      RewrittenUntouched(paths, fs, n - 1, k, fix);
    }
  }

  /** With each path listed once, every visited file holds the fixed
      version of its original text and every other file is untouched. */
  lemma {:induction false} RewrittenContents(paths: seq<string>, fs: map<string, string>, n: nat, fix: string -> string)
    requires n <= |paths| && Distinct(paths)
    ensures forall p :: p in fs ==> Rewritten(paths, fs, n, fix)[p] == if p in paths[..n] then fix(fs[p]) else fs[p]
  {
    if n > 0 {
      RewrittenContents(paths, fs, n - 1, fix);
      RewrittenUntouched(paths, fs, n - 1, n - 1, fix);
      var q := paths[n - 1];
      assert paths[..n] == paths[..n - 1] + [q];
      forall p | p in fs
        ensures Rewritten(paths, fs, n, fix)[p] == if p in paths[..n] then fix(fs[p]) else fs[p]
      {
        if p != q {
          assert p in paths[..n] <==> p in paths[..n - 1];
        }
      }
    }
  }

  /** The positions among the first `n` whose file the fix changes. */
  function ChangedPositions(paths: seq<string>, fs: map<string, string>, n: nat, fix: string -> string): (r: set<nat>)
    ensures forall k :: k in r ==> k < n
  {
    set k: nat | k < n && k < |paths| && paths[k] in fs && fix(fs[paths[k]]) != fs[paths[k]]
  }

  lemma {:induction false} ChangedPositionsStep(paths: seq<string>, fs: map<string, string>, n: nat, fix: string -> string)
    requires 0 < n <= |paths|
    ensures var p := paths[n - 1];
      ChangedPositions(paths, fs, n, fix)
        == ChangedPositions(paths, fs, n - 1, fix) + if p in fs && fix(fs[p]) != fs[p] then {n - 1} else {}
  {
  }

  /** With each path listed once, the visit of the `n`-th path counts
      exactly when the fix changes the original text of its file. */
  lemma {:induction false} ChangedCountStep(paths: seq<string>, fs: map<string, string>, n: nat, fix: string -> string)
    requires 0 < n <= |paths| && Distinct(paths)
    ensures var p := paths[n - 1];
      ChangedCount(paths, fs, n, fix)
        == ChangedCount(paths, fs, n - 1, fix) + if p in fs && fix(fs[p]) != fs[p] then 1 else 0
  {
    var p := paths[n - 1];
    var before := Rewritten(paths, fs, n - 1, fix);
    var c := ChangedCount(paths, fs, n - 1, fix);
    assert ChangedCount(paths, fs, n, fix) == c + if p in before && fix(before[p]) != before[p] then 1 else 0;
    if p in fs {
      NextUntouched(paths, fs, n, fix);
    } else {
      assert p !in before;
    }
  }

  /** The path visited next still holds its original text. */
  lemma {:induction false} NextUntouched(paths: seq<string>, fs: map<string, string>, n: nat, fix: string -> string)
    requires 0 < n <= |paths| && Distinct(paths) && paths[n - 1] in fs
    ensures var before := Rewritten(paths, fs, n - 1, fix);
      paths[n - 1] in before && before[paths[n - 1]] == fs[paths[n - 1]]
  {
    RewrittenUntouched(paths, fs, n - 1, n - 1, fix);
  }

  /** With each path listed once, the count is the number of listed files
      whose original text the fix changes. */
  lemma {:induction false} ChangedCountIsChangedFiles(paths: seq<string>, fs: map<string, string>, n: nat, fix: string -> string)
    requires n <= |paths| && Distinct(paths)
    ensures ChangedCount(paths, fs, n, fix) == |ChangedPositions(paths, fs, n, fix)|
    decreases n, 1
  {
    if n > 0 {
      ChangedCountIsChangedFilesStep(paths, fs, n, fix);
    } else {
      assert ChangedPositions(paths, fs, 0, fix) == {};
    }
  }

  lemma {:induction false} ChangedCountIsChangedFilesStep(paths: seq<string>, fs: map<string, string>, n: nat, fix: string -> string)
    requires 0 < n <= |paths| && Distinct(paths)
    ensures ChangedCount(paths, fs, n, fix) == |ChangedPositions(paths, fs, n, fix)|
    decreases n, 0
  {
    ChangedCountIsChangedFiles(paths, fs, n - 1, fix);
    ChangedCountStep(paths, fs, n, fix);
    ChangedPositionsStep(paths, fs, n, fix);
    var p := paths[n - 1];
    var earlier := ChangedPositions(paths, fs, n - 1, fix);
    if p in fs && fix(fs[p]) != fs[p] {
      AddFresh(earlier, n - 1);
    } else {
      assert earlier + {} == earlier;
    }
  }

  lemma {:induction false} AddFresh(a: set<nat>, x: nat)
    requires forall k :: k in a ==> k < x
    ensures |a + {x}| == |a| + 1
  {
    assert x !in a;
  }
}
