/** The tag list of `src/app/api/blog/tags/route.ts`: the truthy tags of
    the published articles' `tagsNl` and `tagsEn` columns, without
    repetition, in ascending order. The query's rows are the input. */
module TagsRoute {
  import Sorting

  /** A tag column as read from the database: `null`, a value that is not
      an array, or an array of tags. */
  datatype Column = Null | NotArray | Tags(tags: seq<string>)

  datatype Row = Row(tagsNl: Column, tagsEn: Column)

  /** The tags `column.forEach(tag => { if (tag) tagsSet.add(tag) })` adds;
      nothing when `column && Array.isArray(column)` fails. */
  function ColumnTags(c: Column): set<string> {
    if c.Tags? then set t | t in c.tags && t != "" else {}
  }

  function RowTags(r: Row): set<string> {
    ColumnTags(r.tagsNl) + ColumnTags(r.tagsEn)
  }

  /** Every tag the rows contribute. */
  function AllTags(rows: seq<Row>): set<string> {
    if rows == [] then {} else AllTags(rows[..|rows| - 1]) + RowTags(rows[|rows| - 1])
  }

  predicate Distinct(s: seq<string>) {
    forall i, j :: 0 <= i < j < |s| ==> s[i] != s[j]
  }

  /** One inner `forEach`: `seen` is the `Set` in insertion order. */
  method AddTruthy(seen: seq<string>, tags: seq<string>) returns (r: seq<string>)
    requires Distinct(seen)
    ensures Distinct(r)
    ensures forall t :: t in r <==> t in seen || (t in tags && t != "")
    ensures seen <= r
  {
    r := seen;
    for j := 0 to |tags|
      invariant Distinct(r)
      invariant forall t :: t in r <==> t in seen || (t in tags[..j] && t != "")
      invariant seen <= r
    {
      var tag := tags[j];
      assert tags[..j + 1] == tags[..j] + [tag];
      if tag != "" && tag !in r {
        r := r + [tag];
      }
    }
    assert tags[..|tags|] == tags;
  }

  /** `GET`: collects the tags of every row, then `Array.from(tagsSet).sort()`. */
  method GetTags(rows: seq<Row>) returns (tags: seq<string>)
    ensures Sorting.StrictlyAscending(tags)
    ensures forall t :: t in tags <==> t in AllTags(rows)
  {
    var seen: seq<string> := [];
    for i := 0 to |rows|
      invariant Distinct(seen)
      invariant forall t :: t in seen <==> t in AllTags(rows[..i])
    {
      var row := rows[i];
      assert rows[..i + 1][..i] == rows[..i];
      if row.tagsNl.Tags? {
        seen := AddTruthy(seen, row.tagsNl.tags);
      }
      if row.tagsEn.Tags? {
        seen := AddTruthy(seen, row.tagsEn.tags);
      }
    }
    assert rows[..|rows|] == rows;
    tags := Sorting.SortStrings(seen);
    Sorting.SortDistinctStrings(seen);
  }

  // ------------------------------------------------------------- properties

  /** A tag is collected exactly when some row carries it, non-empty, in a
      tag array. */
  lemma {:induction false} AllTagsMembers(rows: seq<Row>, t: string)
    ensures t in AllTags(rows) <==> exists k :: 0 <= k < |rows| && t in RowTags(rows[k])
  {
    if rows != [] {
      var init := rows[..|rows| - 1];
      AllTagsMembers(init, t);
      if t in AllTags(init) {
        var k :| 0 <= k < |init| && t in RowTags(init[k]);
        assert rows[k] == init[k];
      }
      if exists k :: 0 <= k < |rows| && t in RowTags(rows[k]) {
        var k :| 0 <= k < |rows| && t in RowTags(rows[k]);
        if k < |init| {
          assert init[k] == rows[k];
        }
      }
    }
  }

  /** The empty tag is never collected. */
  lemma {:induction false} NoEmptyTag(rows: seq<Row>)
    ensures "" !in AllTags(rows)
  {
    if rows != [] {
      NoEmptyTag(rows[..|rows| - 1]);
    }
  }

  /** The tags of two row lists one after the other are those of both. */
  lemma {:induction false} AllTagsAppend(a: seq<Row>, b: seq<Row>)
    ensures AllTags(a + b) == AllTags(a) + AllTags(b)
  {
    if b == [] {
      assert a + b == a;
    } else {
      var init := b[..|b| - 1];
      AllTagsAppend(a, init);
      assert (a + b)[..|a + b| - 1] == a + init;
      assert (a + b)[|a + b| - 1] == b[|b| - 1];
    }
  }

  /** A row without tag arrays contributes nothing, wherever it stands. */
  lemma {:induction false} RowWithoutArrays(before: seq<Row>, after: seq<Row>, r: Row)
    requires !r.tagsNl.Tags? && !r.tagsEn.Tags?
    ensures AllTags(before + [r] + after) == AllTags(before + after)
  {
    AllTagsAppend(before + [r], after);
    AllTagsAppend(before, after);
    assert (before + [r])[..|before|] == before;
    assert AllTags(before + [r]) == AllTags(before) + RowTags(r);
  }

  /** The order of the rows does not matter. */
  lemma {:induction false} RowOrder(rows: seq<Row>, perm: seq<Row>)
    requires multiset(rows) == multiset(perm)
    ensures AllTags(rows) == AllTags(perm)
  {
    forall t ensures t in AllTags(rows) <==> t in AllTags(perm) {
      AllTagsMembers(rows, t);
      AllTagsMembers(perm, t);
      if exists k :: 0 <= k < |rows| && t in RowTags(rows[k]) {
        var k :| 0 <= k < |rows| && t in RowTags(rows[k]);
        assert rows[k] in multiset(perm);
      }
      if exists k :: 0 <= k < |perm| && t in RowTags(perm[k]) {
        var k :| 0 <= k < |perm| && t in RowTags(perm[k]);
        assert perm[k] in multiset(rows);
      }
    }
  }
}
