/** The list logic of `src/components/admin/contact-form-settings-editor.tsx`:
    the default form fields, the options text of a select field, moving a
    field up or down by swapping order values, and sending the resulting
    updates one at a time. The server's replies are inputs. */
module ContactFormSettings {
  import opened Wrappers
  import Strings
  import JsStrings
  import Sorting

  // ------------------------------------------------------------ the fields

  /** A contact-form field as the editor's form holds it; a field without
      options has the empty list. */
  datatype FieldForm = FieldForm(
    fieldKey: string,
    labelNl: string,
    labelEn: string,
    placeholder: string,
    fieldType: string,
    isRequired: bool,
    isVisible: bool,
    order: int,
    options: seq<string>)

  /** `DEFAULT_FIELDS`: seven required, visible fields. The editor declares
      the list but reads it nowhere. */
  const DEFAULT_FIELDS: seq<FieldForm> := [
    FieldForm("firstName", "Voornaam", "First Name", "Voer uw voornaam in", "text", true, true, 1, []),
    FieldForm("lastName", "Achternaam", "Last Name", "Voer uw achternaam in", "text", true, true, 2, []),
    FieldForm("email", "E-mailadres", "Email Address", "Voer uw e-mailadres in", "email", true, true, 3, []),
    FieldForm("phone", "Telefoonnummer", "Phone Number", "Voer uw telefoonnummer in", "tel", true, true, 4, []),
    FieldForm("company", "Bedrijf", "Company", "Voer uw bedrijfsnaam in", "text", true, true, 5, []),
    FieldForm("projectType", "Projecttype", "Project Type", "Selecteer een type", "select", true, true, 6,
      ["Woningbouw", "Commerci\U{EB}le bouw", "Renovatie", "Interieurdesign", "Advies", "Overig"]),
    FieldForm("message", "Projectbeschrijving", "Project Description", "Beschrijf uw project...", "textarea", true, true, 7, [])
  ]

  /** The default fields carry the orders 1 to 7 in list order, under
      distinct keys, and only the select field has options. */
  lemma {:induction false} DefaultFields()
    ensures |DEFAULT_FIELDS| == 7
    ensures forall k :: 0 <= k < 7 ==> DEFAULT_FIELDS[k].order == k + 1
    ensures forall i, j :: 0 <= i < j < 7 ==> DEFAULT_FIELDS[i].fieldKey != DEFAULT_FIELDS[j].fieldKey
    ensures forall k :: 0 <= k < 7 ==> (DEFAULT_FIELDS[k].options != [] <==> DEFAULT_FIELDS[k].fieldType == "select")
  {
  }

  // ----------------------------------------------------------- the options

  /** The options `onSubmit` stores: the non-empty trimmed lines of the
      options text for a select field whose text is not blank, and none
      otherwise. */
  function Options(fieldType: string, optionsText: string): seq<string> {
    if fieldType == "select" && JsStrings.Trim(optionsText) != "" then JsStrings.Pieces(optionsText, '\n') else []
  }

  /** `onSubmit`: `data.options` is replaced and the rest of the form is
      saved as it is. */
  function Submit(data: FieldForm, optionsText: string): FieldForm {
    data.(options := Options(data.fieldType, optionsText))
  }

  /** Stored options are non-empty trimmed single lines, and only a select
      field has any. */
  lemma {:induction false} OptionsClean(fieldType: string, optionsText: string)
    ensures var opts := Options(fieldType, optionsText);
      (fieldType != "select" ==> opts == [])
      && forall k :: 0 <= k < |opts| ==> opts[k] != "" && JsStrings.Trimmed(opts[k]) && '\n' !in opts[k]
  {
    JsStrings.PiecesClean(optionsText, '\n');
  }

  /** The editor shows a field's options as `options.join("\n")`; saving
      that text unchanged gives back the same options. */
  lemma {:induction false} OptionsRoundTrip(opts: seq<string>)
    requires forall k :: 0 <= k < |opts| ==> opts[k] != "" && JsStrings.Trimmed(opts[k]) && '\n' !in opts[k]
    ensures Options("select", Strings.Join(opts, "\n")) == opts
  {
    if opts != [] {
      var text := Strings.Join(opts, "\n");
      Strings.JoinFirst(opts, "\n");
      JsStrings.TrimProperties(text);
      assert !JsStrings.AllSpace(text) by { assert !JsStrings.IsSpace(text[0]); }
      JsStrings.PiecesRoundTrip(opts, '\n');
    }
  }

  // ------------------------------------------------------------ the moves

  /** A stored setting: its id and its order column, which may be `null`. */
  datatype Setting = Setting(id: string, order: Option<int>)

  /** `f.order || 0`. */
  function OrderKey(s: Setting): int {
    s.order.GetOr(0)
  }

  function Orders(ss: seq<Setting>): (r: seq<int>)
    ensures |r| == |ss|
    ensures forall k :: 0 <= k < |ss| ==> r[k] == OrderKey(ss[k])
  {
    if ss == [] then [] else [OrderKey(ss[0])] + Orders(ss[1..])
  }

  /** `findIndex(f => f.id === id)`: the first position with the id, or -1. */
  function FindIndex(ss: seq<Setting>, id: string): (r: int)
    ensures -1 <= r < |ss|
    ensures r >= 0 ==> ss[r].id == id && forall k :: 0 <= k < r ==> ss[k].id != id
    ensures r == -1 ==> forall k :: 0 <= k < |ss| ==> ss[k].id != id
  {
    if ss == [] then -1
    else if ss[0].id == id then 0
    else
      var r := FindIndex(ss[1..], id);
      if r == -1 then -1 else r + 1
  }

  /** `find(f => f.id === id)`. */
  function Find(ss: seq<Setting>, id: string): Option<Setting> {
    var i := FindIndex(ss, id);
    if i < 0 then None else Some(ss[i])
  }

  /** The stable sort by `(a.order || 0) - (b.order || 0)`. */
  function SortedSettings(ss: seq<Setting>): seq<Setting> {
    Sorting.SortByKey(ss, OrderKey)
  }

  datatype Direction = Up | Down

  /** One `PUT` of the move: the field's new order. */
  datatype Update = Update(id: string, order: int)

  /** The neighbour a move swaps with, when there is one. */
  function Target(settings: seq<Setting>, fieldId: string, dir: Direction): Option<Setting> {
    var sorted := SortedSettings(settings);
    var i := FindIndex(sorted, fieldId);
    if dir == Up && i > 0 then Some(sorted[i - 1])
    else if dir == Down && i < |sorted| - 1 then Some(sorted[i + 1])
    else None
  }

  /** `handleMoveField`: the updates handed to `moveMutation`, or `None`
      when nothing is sent (a move pending, an unknown id, or no neighbour
      in that direction). */
  function MoveUpdates(pending: bool, settings: seq<Setting>, fieldId: string, dir: Direction): (r: Option<seq<Update>>)
    ensures pending || Find(settings, fieldId).None? ==> r.None?
    ensures r.Some? ==> |r.value| == 2 && r.value[0].id == fieldId
  {
    var field := Find(settings, fieldId);
    if pending || field.None? then None
    else
      var target := Target(settings, fieldId, dir);
      if target.None? then None
      else Some([Update(fieldId, OrderKey(target.value)), Update(target.value.id, OrderKey(field.value))])
  }

  /** `PUT /api/admin/contact-form-settings/:id` with `{ order }`. */
  function ApplyUpdate(ss: seq<Setting>, u: Update): (r: seq<Setting>)
    ensures |r| == |ss|
    ensures forall k :: 0 <= k < |ss| ==> r[k] == if ss[k].id == u.id then ss[k].(order := Some(u.order)) else ss[k]
  {
    if ss == [] then []
    else [if ss[0].id == u.id then ss[0].(order := Some(u.order)) else ss[0]] + ApplyUpdate(ss[1..], u)
  }

  function Apply(ss: seq<Setting>, us: seq<Update>): seq<Setting>
    decreases |us|
  {
    if us == [] then ss else Apply(ApplyUpdate(ss, us[0]), us[1..])
  }

  predicate DistinctIds(ss: seq<Setting>) {
    forall i, j :: 0 <= i < j < |ss| ==> ss[i].id != ss[j].id
  }

  /** In a move the field found is the one at its sorted position. */
  lemma {:induction false} FoundInSorted(settings: seq<Setting>, fieldId: string)
    requires Find(settings, fieldId).Some?
    ensures var sorted := SortedSettings(settings);
      var i := FindIndex(sorted, fieldId);
      0 <= i < |sorted| && (DistinctIds(settings) ==> sorted[i] == Find(settings, fieldId).value)
  {
    var sorted := SortedSettings(settings);
    var field := Find(settings, fieldId).value;
    assert field in multiset(sorted);
    var m :| 0 <= m < |sorted| && sorted[m] == field;
    var i := FindIndex(sorted, fieldId);
    if DistinctIds(settings) {
      assert sorted[i] in multiset(settings);
      var p :| 0 <= p < |settings| && settings[p] == sorted[i];
      assert settings[FindIndex(settings, fieldId)] == field;
    }
  }

  /** Moving up from the first sorted position or down from the last one
      sends nothing. */
  lemma {:induction false} MoveAtEdge(settings: seq<Setting>, fieldId: string, dir: Direction)
    requires Find(settings, fieldId).Some?
    requires var sorted := SortedSettings(settings);
      var i := FindIndex(sorted, fieldId);
      (dir == Up && i == 0) || (dir == Down && i == |sorted| - 1)
    ensures MoveUpdates(false, settings, fieldId, dir).None?
  {
    FoundInSorted(settings, fieldId);
  }

  /** Away from the edges a move of a known field is sent. */
  lemma {:induction false} MoveInside(settings: seq<Setting>, fieldId: string, dir: Direction)
    requires Find(settings, fieldId).Some?
    requires var sorted := SortedSettings(settings);
      var i := FindIndex(sorted, fieldId);
      (dir == Up && i != 0) || (dir == Down && i != |sorted| - 1)
    ensures MoveUpdates(false, settings, fieldId, dir).Some?
  {
    FoundInSorted(settings, fieldId);
  }

  /** With distinct ids a move swaps the order values of the field and its
      sorted neighbour and changes no other setting. */
  lemma {:induction false} MoveSwaps(settings: seq<Setting>, fieldId: string, dir: Direction)
    requires DistinctIds(settings)
    requires MoveUpdates(false, settings, fieldId, dir).Some?
    ensures var t := Target(settings, fieldId, dir).value;
      var f := Find(settings, fieldId).value;
      var p := FindIndex(settings, fieldId);
      var q := FindIndex(settings, t.id);
      0 <= p < |settings| && 0 <= q < |settings| && p != q && settings[p] == f && settings[q] == t
      && Apply(settings, MoveUpdates(false, settings, fieldId, dir).value)
         == settings[p := f.(order := Some(OrderKey(t)))][q := t.(order := Some(OrderKey(f)))]
  {
    var t := Target(settings, fieldId, dir).value;
    TargetFound(settings, fieldId, dir);
    var us := MoveUpdates(false, settings, fieldId, dir).value;
    assert us == [us[0], us[1]];
    ApplyTwo(settings, us[0], us[1], FindIndex(settings, fieldId), FindIndex(settings, t.id));
  }

  /** With distinct ids the neighbour is a setting with another id, found
      at its own position. */
  lemma {:induction false} TargetFound(settings: seq<Setting>, fieldId: string, dir: Direction)
    requires DistinctIds(settings)
    requires Find(settings, fieldId).Some? && Target(settings, fieldId, dir).Some?
    ensures var t := Target(settings, fieldId, dir).value;
      var q := FindIndex(settings, t.id);
      0 <= q < |settings| && settings[q] == t && t.id != fieldId
  {
    var sorted := SortedSettings(settings);
    FoundInSorted(settings, fieldId);
    DistinctIdsPermutation(settings, sorted);
    var t := Target(settings, fieldId, dir).value;
    assert t.id != fieldId;
    assert t in multiset(settings) by { assert t in sorted; }
    var m :| 0 <= m < |settings| && settings[m] == t;
    var q := FindIndex(settings, t.id);
    assert settings[q] == t;
  }

  /** Two updates of two distinct settings by distinct ids. */
  lemma {:induction false} ApplyTwo(ss: seq<Setting>, u0: Update, u1: Update, p: nat, q: nat)
    requires DistinctIds(ss)
    requires p < |ss| && q < |ss| && p != q && ss[p].id == u0.id && ss[q].id == u1.id
    ensures Apply(ss, [u0, u1]) == ss[p := ss[p].(order := Some(u0.order))][q := ss[q].(order := Some(u1.order))]
  {
    var a1 := ss[p := ss[p].(order := Some(u0.order))];
    assert ApplyUpdate(ss, u0) == a1 by {
      ApplyUpdateAt(ss, u0, p);
    }
    assert DistinctIds(a1) by {
      assert forall k :: 0 <= k < |ss| ==> a1[k].id == ss[k].id;
    }
    assert ApplyUpdate(a1, u1) == a1[q := ss[q].(order := Some(u1.order))] by {
      ApplyUpdateAt(a1, u1, q);
      assert a1[q] == ss[q];
    }
    ApplyPair(ss, u0, u1);
  }

  lemma {:induction false} ApplyPair(ss: seq<Setting>, u0: Update, u1: Update)
    ensures Apply(ss, [u0, u1]) == ApplyUpdate(ApplyUpdate(ss, u0), u1)
  {
    assert [u0, u1][1..] == [u1];
    assert [u1][1..] == [];
    var a1 := ApplyUpdate(ss, u0);
    assert Apply(ss, [u0, u1]) == Apply(a1, [u1]);
    assert Apply(a1, [u1]) == Apply(ApplyUpdate(a1, u1), []);
  }

  /** With distinct ids an update changes the one setting with its id. */
  lemma {:induction false} ApplyUpdateAt(ss: seq<Setting>, u: Update, p: nat)
    requires DistinctIds(ss)
    requires p < |ss| && ss[p].id == u.id
    ensures ApplyUpdate(ss, u) == ss[p := ss[p].(order := Some(u.order))]
  {
  }

  /** Hence a move keeps the multiset of order values. */
  lemma {:induction false} MovePreservesOrders(settings: seq<Setting>, fieldId: string, dir: Direction)
    requires DistinctIds(settings)
    requires MoveUpdates(false, settings, fieldId, dir).Some?
    ensures multiset(Orders(Apply(settings, MoveUpdates(false, settings, fieldId, dir).value))) == multiset(Orders(settings))
  {
    MoveSwaps(settings, fieldId, dir);
    var t := Target(settings, fieldId, dir).value;
    var f := Find(settings, fieldId).value;
    var p := FindIndex(settings, fieldId);
    var q := FindIndex(settings, t.id);
    var after := settings[p := f.(order := Some(OrderKey(t)))][q := t.(order := Some(OrderKey(f)))];
    var o := Orders(settings);
    OrdersUpdate(settings, p, q, f.(order := Some(OrderKey(t))), t.(order := Some(OrderKey(f))));
    SwapMultiset(o, p, q);
  }

  lemma {:induction false} OrdersUpdate(ss: seq<Setting>, p: nat, q: nat, x: Setting, y: Setting)
    requires p < |ss| && q < |ss|
    ensures Orders(ss[p := x][q := y]) == Orders(ss)[p := OrderKey(x)][q := OrderKey(y)]
  {
    var l := Orders(ss[p := x][q := y]);
    var r := Orders(ss)[p := OrderKey(x)][q := OrderKey(y)];
    forall k | 0 <= k < |ss| ensures l[k] == r[k] {
    }
  }

  lemma {:induction false} SwapMultiset(o: seq<int>, p: nat, q: nat)
    requires p < |o| && q < |o|
    ensures multiset(o[p := o[q]][q := o[p]]) == multiset(o)
  {
  }

  /** Sorting keeps ids distinct. */
  lemma {:induction false} DistinctIdsPermutation(s: seq<Setting>, t: seq<Setting>)
    requires multiset(s) == multiset(t) && DistinctIds(s)
    ensures DistinctIds(t)
  {
    forall a, b | 0 <= a < b < |t| ensures t[a].id != t[b].id {
      assert t[a] in multiset(s) && t[b] in multiset(s);
      var i :| 0 <= i < |s| && s[i] == t[a];
      var j :| 0 <= j < |s| && s[j] == t[b];
      if t[a] == t[b] {
        Sorting.MultiplicityAtLeastTwo(t, a, b);
        TwoOccurrences(s, t[a]);
      }
    }
  }

  lemma {:induction false} TwoOccurrences(s: seq<Setting>, x: Setting)
    requires multiset(s)[x] >= 2
    ensures exists i, j :: 0 <= i < j < |s| && s[i] == x && s[j] == x
  {
    assert s == [s[0]] + s[1..];
    if s[0] == x {
      assert x in multiset(s[1..]);
      var j :| 0 <= j < |s[1..]| && s[1..][j] == x;
      assert s[j + 1] == x;
    } else {
      TwoOccurrences(s[1..], x);
      var i, j :| 0 <= i < j < |s[1..]| && s[1..][i] == x && s[1..][j] == x;
      assert s[i + 1] == x && s[j + 1] == x;
    }
  }

  // ------------------------------------------------------- sending updates

  /** The server's answer to one `PUT`, when it is sent; `message` is the
      error's message, or `Unknown error`. */
  datatype Reply = Saved | Failed(message: string)

  datatype Outcome = Completed(results: seq<Update>) | Threw(message: string)

  /** The position of the first failing reply. */
  function FirstFailure(replies: seq<Reply>): (r: Option<nat>)
    ensures r.Some? ==>
      r.value < |replies| && replies[r.value].Failed? && forall k :: 0 <= k < r.value ==> replies[k].Saved?
    ensures r.None? ==> forall k :: 0 <= k < |replies| ==> replies[k].Saved?
  {
    if replies == [] then None
    else if replies[0].Failed? then Some(0)
    else
      var r := FirstFailure(replies[1..]);
      if r.None? then None else Some(r.value + 1)
  }

  /** `moveMutation`: the updates are sent one by one in list order;
      `replies[k]` is the answer to the k-th request. `sent` lists the
      requests made. */
  method SendUpdates(updates: seq<Update>, replies: seq<Reply>) returns (sent: seq<Update>, outcome: Outcome)
    requires |replies| == |updates|
    ensures var f := FirstFailure(replies);
      (f.None? ==> sent == updates && outcome == Completed(updates))
      && (f.Some? ==>
            sent == updates[..f.value + 1]
            && outcome == Threw("Failed to update field " + updates[f.value].id + ": " + replies[f.value].message))
  {
    sent := [];
    var results: seq<Update> := [];
    for i := 0 to |updates|
      invariant sent == updates[..i] && results == updates[..i]
      invariant forall k :: 0 <= k < i ==> replies[k].Saved?
    {
      sent := sent + [updates[i]];
      if replies[i].Failed? {
        return sent, Threw("Failed to update field " + updates[i].id + ": " + replies[i].message);
      }
      results := results + [updates[i]];
    }
    assert updates[..|updates|] == updates;
    return sent, Completed(results);
  }
}
