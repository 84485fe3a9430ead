/** Language-neutral operations on strings: splitting on a separator,
    joining, and searching for substrings. */
module Strings {
  import opened Wrappers

  /** `t` occurs in `s` starting at index `i`. */
  predicate OccursAt(s: string, t: string, i: int) {
    0 <= i && i + |t| <= |s| && s[i..i + |t|] == t
  }

  /** `s` begins with `t`, character by character. */
  predicate StartsWith(s: string, t: string)
    ensures StartsWith(s, t) ==> |t| <= |s|
  {
    t == [] || (s != [] && s[0] == t[0] && StartsWith(s[1..], t[1..]))
  }

  /** Beginning with `t` is occurring at index 0. */
  lemma {:induction false} StartsWithOccurs(s: string, t: string)
    ensures StartsWith(s, t) <==> OccursAt(s, t, 0)
  {
    if t != [] && s != [] {
      StartsWithOccurs(s[1..], t[1..]);
      assert OccursAt(s, t, 0) <==> s[0] == t[0] && OccursAt(s[1..], t[1..], 0) by {
        if OccursAt(s, t, 0) {
          assert s[1..][..|t| - 1] == s[..|t|][1..];
        }
        if s[0] == t[0] && OccursAt(s[1..], t[1..], 0) {
          assert s[..|t|] == [s[0]] + s[1..][..|t| - 1];
        }
      }
    }
  }

  /** `s.includes(t)` / Python's `t in s`. */
  predicate Contains(s: string, t: string) {
    exists i | 0 <= i <= |s| - |t| :: OccursAt(s, t, i)
  }

  /** The index of the first occurrence of `t` in `s` at or after `from`. */
  function IndexOfFrom(s: string, t: string, from: nat): (r: Option<nat>)
    ensures r.Some? ==> from <= r.value && OccursAt(s, t, r.value)
    ensures r.Some? ==> forall j :: from <= j < r.value ==> !OccursAt(s, t, j)
    ensures r.None? ==> forall j :: from <= j ==> !OccursAt(s, t, j)
    decreases |s| - from
  {
    if from + |t| > |s| then None
    else if s[from..from + |t|] == t then Some(from)
    else IndexOfFrom(s, t, from + 1)
  }

  /** `s.indexOf(t)` as an option. */
  function IndexOf(s: string, t: string): (r: Option<nat>)
    ensures r.Some? <==> Contains(s, t)
    ensures r.Some? ==> OccursAt(s, t, r.value) && forall j :: 0 <= j < r.value ==> !OccursAt(s, t, j)
  {
    IndexOfFrom(s, t, 0)
  }

  /** The index of the first `c` at or after `from`, or `|s|` when there
      is none. */
  function FirstCharFrom(s: string, c: char, from: nat): (r: nat)
    requires from <= |s|
    ensures from <= r <= |s|
    ensures r < |s| ==> s[r] == c
    decreases |s| - from
  {
    if from == |s| || s[from] == c then from else FirstCharFrom(s, c, from + 1)
  }

  /** No `c` comes before the one found. */
  lemma {:induction false} FirstCharFromIsFirst(s: string, c: char, from: nat)
    requires from <= |s|
    ensures forall j :: from <= j < FirstCharFrom(s, c, from) ==> s[j] != c
    decreases |s| - from
  {
    if from < |s| && s[from] != c {
      FirstCharFromIsFirst(s, c, from + 1);
    }
  }

  /** A `c` with no `c` between `from` and it is the first one. */
  lemma {:induction false} FirstCharFromIs(s: string, c: char, from: nat, r: nat)
    requires from <= r < |s| && s[r] == c && forall j :: from <= j < r ==> s[j] != c
    ensures FirstCharFrom(s, c, from) == r
    decreases r - from
  {
    if from < r {
      FirstCharFromIs(s, c, from + 1, r);
    }
  }

  /** Slicing facts, stated apart so that heavy proofs can cite them. */
  lemma {:induction false} DropDrop<T>(s: seq<T>, a: nat, b: nat)
    requires a + b <= |s|
    ensures s[a..][b..] == s[a + b..]
  {
  }

  lemma {:induction false} TakeOfDrop<T>(s: seq<T>, i: nat, n: nat)
    requires i + n <= |s|
    ensures s[i..][..n] == s[i..i + n]
  {
  }

  lemma {:induction false} DropAppend<T>(a: seq<T>, b: seq<T>, i: nat)
    requires |a| <= i <= |a| + |b|
    ensures (a + b)[i..] == b[i - |a|..]
  {
  }

  lemma {:induction false} PrefixChars<T>(t: seq<T>, u: seq<T>)
    requires |u| <= |t| && t[..|u|] == u
    ensures forall j :: 0 <= j < |u| ==> t[j] == u[j]
  {
    assert forall j :: 0 <= j < |u| ==> t[..|u|][j] == t[j];
  }

  lemma {:induction false} PrefixShorter<T>(a: seq<T>, b: seq<T>, n: nat, m: nat)
    requires n <= m <= |a| && m <= |b| && a[..m] == b[..m]
    ensures a[..n] == b[..n]
  {
    assert a[..n] == a[..m][..n];
    assert b[..n] == b[..m][..n];
  }

  lemma {:induction false} NotInSlice<T>(s: seq<T>, x: T, i: nat, j: nat)
    requires i <= j <= |s| && x !in s
    ensures x !in s[i..j]
  {
  }

  lemma {:induction false} ConsTakeAppend<T>(s: seq<T>, m: nat, rest: seq<T>)
    requires 0 < m <= |s|
    ensures [s[0]] + (s[1..][..m - 1] + rest) == s[..m] + rest
  {
  }

  /** `s.lastIndexOf(c)`, with -1 for "absent". */
  function LastIndexOfChar(s: string, c: char): (r: int)
    ensures -1 <= r < |s|
    ensures r >= 0 ==> s[r] == c && forall j :: r < j < |s| ==> s[j] != c
    ensures r == -1 <==> c !in s
  {
    if s == [] then -1
    else if s[|s| - 1] == c then |s| - 1
    else LastIndexOfChar(s[..|s| - 1], c)
  }

  /** `parts.join(sep)`. */
  function Join(parts: seq<string>, sep: string): string
  {
    if |parts| == 0 then ""
    else if |parts| == 1 then parts[0]
    else parts[0] + sep + Join(parts[1..], sep)
  }

  /** The parts with a space put before every one but the first. */
  function SpacedAfterFirst(parts: seq<string>): (r: seq<string>)
    requires |parts| >= 1
    ensures |r| == |parts| && r[0] == parts[0]
    ensures forall k :: 1 <= k < |parts| ==> r[k] == " " + parts[k]
  {
    [parts[0]] + Map(parts[1..], (x: string) => " " + x)
  }

  /** Joining with `c` and a space is joining with `c` once a space is put
      before every part but the first. */
  lemma {:induction false} JoinWithSpace(parts: seq<string>, c: char)
    requires |parts| >= 1
    ensures Join(parts, [c, ' ']) == Join(SpacedAfterFirst(parts), [c])
  {
    if |parts| >= 2 {
      var tail := parts[1..];
      JoinWithSpace(tail, c);
      var sp := SpacedAfterFirst(parts);
      var spTail := SpacedAfterFirst(tail);
      assert sp[1..] == [" " + tail[0]] + spTail[1..];
      JoinSpaceFirst(tail[0], spTail[1..], c);
      assert spTail == [tail[0]] + spTail[1..];
    }
  }

  lemma {:induction false} JoinSpaceFirst(x: string, rest: seq<string>, c: char)
    ensures Join([" " + x] + rest, [c]) == " " + Join([x] + rest, [c])
  {
    if rest != [] {
      assert ([" " + x] + rest)[1..] == rest;
      assert ([x] + rest)[1..] == rest;
    }
  }

  /** A join starts with the first character of a non-empty first part. */
  lemma {:induction false} JoinFirst(parts: seq<string>, sep: string)
    requires |parts| >= 1 && parts[0] != []
    ensures Join(parts, sep) != [] && Join(parts, sep)[0] == parts[0][0]
  {
  }

  /** A join ends with the last character of a non-empty last part. */
  lemma {:induction false} JoinLast(parts: seq<string>, sep: string)
    requires |parts| >= 1 && parts[|parts| - 1] != []
    ensures var j := Join(parts, sep);
      j != [] && j[|j| - 1] == parts[|parts| - 1][|parts[|parts| - 1]| - 1]
  {
    if |parts| >= 2 {
      JoinLast(parts[1..], sep);
    }
  }

  /** Joining one part more appends the separator and that part. */
  lemma {:induction false} JoinAppend(parts: seq<string>, x: string, sep: string)
    requires |parts| >= 1
    ensures Join(parts + [x], sep) == Join(parts, sep) + sep + x
  {
    if |parts| >= 2 {
      JoinAppend(parts[1..], x, sep);
      assert (parts + [x])[1..] == parts[1..] + [x];
    }
  }

  /** A character in no part and not in the separator is not in the join. */
  lemma {:induction false} JoinAvoids(parts: seq<string>, sep: string, c: char)
    requires c !in sep && forall k :: 0 <= k < |parts| ==> c !in parts[k]
    ensures c !in Join(parts, sep)
  {
    if |parts| >= 2 {
      JoinAvoids(parts[1..], sep, c);
    }
  }

  /** Every line followed by a newline, as text files are written. */
  function Lines(ls: seq<string>): string {
    if ls == [] then "" else Lines(ls[..|ls| - 1]) + ls[|ls| - 1] + "\n"
  }

  /** One line more is that line and a newline more. */
  lemma {:induction false} LinesSnoc(ls: seq<string>, l: string)
    ensures Lines(ls + [l]) == Lines(ls) + (l + "\n")
  {
    assert (ls + [l])[..|ls|] == ls;
  }

  /** The lines up to one more of `more`. */
  lemma {:induction false} LinesPrefixStep(ls: seq<string>, more: seq<string>, i: nat)
    requires i < |more|
    ensures Lines(ls + more[..i + 1]) == Lines(ls + more[..i]) + (more[i] + "\n")
  {
    LinesSnoc(ls + more[..i], more[i]);
    assert ls + more[..i + 1] == (ls + more[..i]) + [more[i]];
  }

  /** Newline-terminated lines are the lines joined by newlines, with an
      empty last piece. */
  lemma {:induction false} LinesJoin(ls: seq<string>)
    ensures Lines(ls) == Join(ls + [""], "\n")
  {
    if ls != [] {
      var init := ls[..|ls| - 1];
      var l := ls[|ls| - 1];
      LinesJoin(init);
      assert ls == init + [l];
      assert ls + [""] == (init + [l]) + [""];
      JoinAppend(init + [l], "", "\n");
      if init != [] {
        JoinAppend(init, l, "\n");
        JoinAppend(init, "", "\n");
      }
    }
  }

  /** Splitting newline-terminated lines on the newline gives the lines
      back, then the empty text after the last newline. */
  lemma {:induction false} LinesSplit(ls: seq<string>)
    requires forall k :: 0 <= k < |ls| ==> '\n' !in ls[k]
    ensures Split(Lines(ls), '\n') == ls + [""]
  {
    LinesJoin(ls);
    SplitJoin(ls + [""], '\n');
  }

  /** Concatenation of all parts, `parts.join('')`. */
  function Concat(parts: seq<string>): (r: string)
    ensures |parts| > 0 ==> |r| >= |parts[0]|
  {
    if parts == [] then "" else parts[0] + Concat(parts[1..])
  }

  /** `s.split(sep)` for a one-character separator, as JavaScript and
      Python both define it: the pieces between separators, including
      empty ones, always at least one. */
  function Split(s: string, sep: char): (parts: seq<string>)
    ensures |parts| >= 1
    ensures forall k :: 0 <= k < |parts| ==> sep !in parts[k]
    ensures Join(parts, [sep]) == s
    ensures |parts| == 1 <==> sep !in s
  {
    if s == [] then [""]
    else
      var rest := Split(s[1..], sep);
      if s[0] == sep then [""] + rest
      else [[s[0]] + rest[0]] + rest[1..]
  }

  /** Joining pieces that do not contain the separator, then splitting,
      gives the pieces back. */
  lemma {:induction false} SplitJoin(parts: seq<string>, sep: char)
    requires |parts| >= 1
    requires forall k :: 0 <= k < |parts| ==> sep !in parts[k]
    ensures Split(Join(parts, [sep]), sep) == parts
    decreases |parts|, |parts[0]|, 1
  {
    var p := parts[0];
    if |parts| == 1 {
      SplitNoSep(p, sep);
    } else if p == [] {
      var tail := parts[1..];
      SplitJoin(tail, sep);
      assert Join(parts, [sep]) == [sep] + Join(tail, [sep]);
    } else {
      SplitJoinFirstChar(parts, sep);
    }
  }

  /** The step of `SplitJoin` that moves the first character of a
      non-empty first piece. */
  lemma {:induction false} SplitJoinFirstChar(parts: seq<string>, sep: char)
    requires |parts| >= 2 && parts[0] != []
    requires forall k :: 0 <= k < |parts| ==> sep !in parts[k]
    ensures Split(Join(parts, [sep]), sep) == parts
    decreases |parts|, |parts[0]|, 0
  {
    var p := parts[0];
    var shorter := [p[1..]] + parts[1..];
    SplitJoin(shorter, sep);
    assert shorter[1..] == parts[1..];
    var joined := Join(parts, [sep]);
    assert joined == [p[0]] + Join(shorter, [sep]);
    assert joined[1..] == Join(shorter, [sep]);
    assert Split(joined, sep) == [[p[0]] + p[1..]] + parts[1..];
    assert p == [p[0]] + p[1..];
  }

  /** The first piece of a split is the text before the first separator. */
  lemma {:induction false} SplitFirstPiece(s: string, sep: char)
    ensures var p := Split(s, sep)[0];
      p <= s && sep !in p && (p == s || s[|p|] == sep)
  {
    if s != [] && s[0] != sep {
      SplitFirstPiece(s[1..], sep);
    }
  }

  /** Text free of the separator, then the separator: the first piece is
      that text. */
  lemma {:induction false} SplitBeforeSep(a: string, sep: char, b: string)
    requires sep !in a
    ensures Split(a + [sep] + b, sep)[0] == a
  {
    var s := a + [sep] + b;
    if a != [] {
      SplitBeforeSep(a[1..], sep, b);
      assert s[1..] == a[1..] + [sep] + b;
      assert a == [a[0]] + a[1..];
    }
  }

  /** A string without the separator splits into itself. */
  lemma {:induction false} SplitNoSep(s: string, sep: char)
    requires sep !in s
    ensures Split(s, sep) == [s]
  {
    if s != [] {
      SplitNoSep(s[1..], sep);
      assert s == [s[0]] + s[1..];
    }
  }

  /** Keeps the elements satisfying `p`, in order (`filter`). */
  function Filter<T>(s: seq<T>, p: T -> bool): (r: seq<T>)
    ensures |r| <= |s|
    ensures forall k :: 0 <= k < |r| ==> r[k] in s && p(r[k])
    ensures forall k :: 0 <= k < |s| && p(s[k]) ==> s[k] in r
  {
    if s == [] then [] else (if p(s[0]) then [s[0]] else []) + Filter(s[1..], p)
  }

  lemma {:induction false} FilterCons<T>(x: T, rest: seq<T>, p: T -> bool)
    ensures Filter([x] + rest, p) == (if p(x) then [x] else []) + Filter(rest, p)
  {
    assert ([x] + rest)[1..] == rest;
  }

  /** Applying `f` to every element (`map`). */
  function Map<T, U>(s: seq<T>, f: T -> U): (r: seq<U>)
    ensures |r| == |s|
    ensures forall k :: 0 <= k < |s| ==> r[k] == f(s[k])
  {
    if s == [] then [] else [f(s[0])] + Map(s[1..], f)
  }

  /** Every character of `s` satisfies `ok`. */
  predicate AllChars(s: string, ok: char -> bool) {
    forall k :: 0 <= k < |s| ==> ok(s[k])
  }
}
