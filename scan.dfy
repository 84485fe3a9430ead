/** `re.finditer` for a pattern given by its match function: `f(x)` is the
    length of the match of the pattern at the start of `x`, if any. The
    patterns modelled here never match the empty text, so a result that is
    empty or longer than `x` is read as "no match". */
module Scan {
  import opened Wrappers

  /** A match: the text `s[start..end]`. */
  datatype Span = Span(start: nat, end: nat)

  /** `f` finds a match of length `e` at index `i` of `s`. */
  predicate MatchesAt(s: string, f: string -> Option<nat>, i: nat, e: nat)
    requires i <= |s|
  {
    f(s[i..]) == Some(e) && 0 < e <= |s| - i
  }

  /** The leftmost match at or after `from`, then the leftmost one at or
      after its end, and so on. */
  function FindAll(s: string, f: string -> Option<nat>, from: nat): (ms: seq<Span>)
    requires from <= |s|
    ensures forall k :: 0 <= k < |ms| ==>
      from <= ms[k].start < ms[k].end <= |s| && MatchesAt(s, f, ms[k].start, ms[k].end - ms[k].start)
    ensures forall k :: 0 <= k < |ms| - 1 ==> ms[k].end <= ms[k + 1].start
    decreases |s| - from
  {
    if from == |s| then []
    else
      var r := f(s[from..]);
      if r.Some? && 0 < r.value <= |s| - from then [Span(from, from + r.value)] + FindAll(s, f, from + r.value)
      else FindAll(s, f, from + 1)
  }

  /** `i` lies inside one of the spans. */
  predicate Covered(ms: seq<Span>, i: nat) {
    exists k :: 0 <= k < |ms| && ms[k].start <= i < ms[k].end
  }

  /** Nothing is missed: no match starts at a position, at or after
      `from`, that no found match covers. */
  lemma {:induction false} FindAllComplete(s: string, f: string -> Option<nat>, from: nat, i: nat)
    requires from <= i < |s| && !Covered(FindAll(s, f, from), i)
    ensures forall e :: !MatchesAt(s, f, i, e)
    decreases |s| - from
  {
    var ms := FindAll(s, f, from);
    var r := f(s[from..]);
    if r.Some? && 0 < r.value <= |s| - from {
      var e := r.value;
      assert ms[0] == Span(from, from + e);
      if i < from + e {
        assert false;
      } else {
        var rest := FindAll(s, f, from + e);
        assert ms == [Span(from, from + e)] + rest;
        forall k | 0 <= k < |rest| ensures !(rest[k].start <= i < rest[k].end) {
          assert rest[k] == ms[k + 1];
        }
        FindAllComplete(s, f, from + e, i);
      }
    } else if i > from {
      FindAllComplete(s, f, from + 1, i);
    }
  }
}
