/** The form logic of `src/components/admin/enhanced-blog-editor.tsx`: the
    slug generator and the canonical URL built from it, the tag lists, the
    meta-description autofill and the `publishedAt` rule of the create and
    update payloads. The page origin and the current time are parameters. */
module BlogEditor {
  import opened Wrappers
  import Strings
  import JsStrings

  // ----------------------------------------------------------------- slugs

  /** A character `[À-ſa-z0-9 ]` keeps. */
  predicate SlugKept(c: char) {
    (0xC0 <= c as int <= 0x17F) || ('a' <= c <= 'z') || ('0' <= c <= '9') || c == ' '
  }

  /** A character a slug can hold. */
  predicate SlugChar(c: char) {
    (SlugKept(c) && c != ' ') || c == '-'
  }

  /** `s.replace(/[^À-ſa-z0-9 ]/g, '')`. */
  function KeepSlugChars(s: string): (r: string)
    ensures forall k :: 0 <= k < |r| ==> SlugKept(r[k])
  {
    if s == [] then [] else (if SlugKept(s[0]) then [s[0]] else []) + KeepSlugChars(s[1..])
  }

  /** The number of leading `-` characters. */
  function LeadingHyphens(s: string): (n: nat)
    ensures n <= |s|
    ensures forall k :: 0 <= k < n ==> s[k] == '-'
    ensures n < |s| ==> s[n] != '-'
  {
    if s != [] && s[0] == '-' then
      var m := LeadingHyphens(s[1..]);
      assert forall k :: 1 <= k < m + 1 ==> s[k] == s[1..][k - 1];
      m + 1
    else 0
  }

  /** The text after its leading `-` characters. */
  function DropHyphens(s: string): (r: string)
    ensures |r| <= |s| && r == s[|s| - |r|..]
    ensures r == [] || r[0] != '-'
    ensures s != [] && s[0] == '-' ==> |r| < |s|
  {
    s[LeadingHyphens(s)..]
  }

  /** A `-` at `k` followed by another. */
  predicate DoubleHyphenAt(s: string, k: int)
    requires 0 <= k < |s| - 1
  {
    s[k] == '-' && s[k + 1] == '-'
  }

  predicate NoDoubleHyphen(s: string) {
    forall k :: 0 <= k < |s| - 1 ==> !DoubleHyphenAt(s, k)
  }

  /** `s.replace(/-+/g, '-')`: every run of `-` becomes one. */
  function CollapseHyphens(s: string): (r: string)
    ensures r == [] <==> s == []
    ensures r != [] ==> r[0] == s[0]
    ensures NoDoubleHyphen(r)
    ensures SlugChars(s) ==> SlugChars(r)
    decreases |s|
  {
    if s == [] then []
    else
      // after a `-`, the rest of its run is dropped
      var t := if s[0] == '-' then DropHyphens(s) else s[1..];
      var rest := CollapseHyphens(t);
      CollapseStep(s, t, rest);
      [s[0]] + rest
  }

  /** One step of `CollapseHyphens`: the kept first character before the
      collapsed rest. */
  lemma {:induction false} CollapseStep(s: string, t: string, rest: string)
    requires s != [] && t == if s[0] == '-' then DropHyphens(s) else s[1..]
    requires rest == [] <==> t == []
    requires rest != [] ==> rest[0] == t[0]
    requires NoDoubleHyphen(rest)
    requires SlugChars(t) ==> SlugChars(rest)
    ensures NoDoubleHyphen([s[0]] + rest)
    ensures SlugChars(s) ==> SlugChars([s[0]] + rest)
  {
    var r := [s[0]] + rest;
    forall k | 0 <= k < |r| - 1
      ensures !DoubleHyphenAt(r, k)
    {
      if k > 0 {
        assert r[k] == rest[k - 1] && r[k + 1] == rest[k];
        assert !DoubleHyphenAt(rest, k - 1);
      }
    }
    if SlugChars(s) {
      assert t == s[|s| - |t|..];
      forall k | 0 <= k < |t|
        ensures SlugChar(t[k])
      {
        assert t[k] == s[|s| - |t| + k];
      }
      forall k | 0 <= k < |r|
        ensures SlugChar(r[k])
      {
        if k > 0 {
          assert r[k] == rest[k - 1];
        }
      }
    }
  }

  /** The steps of `generateSlug` before `trim()`: lower-case, delete,
      turn white-space runs into `-`, collapse `-` runs. */
  function Collapsed(title: string): string {
    CollapseHyphens(JsStrings.ReplaceSpaceRuns(KeepSlugChars(JsStrings.ToLower(title)), "-"))
  }

  /** `generateSlug`, as the editor calls it: the steps above, then
      `trim()`. The slug holds only slug characters (so no white space and
      no character the deletion removed) and never two `-` in a row. */
  function GenerateSlug(title: string): (r: string)
    ensures SlugText(r)
  {
    CollapsedShape(title);
    JsStrings.Trim(Collapsed(title))
  }

  /** The steps before `trim()` leave no white space, so `trim()` changes
      nothing: the slug is the collapsed text itself. */
  lemma {:induction false} GenerateSlugUntrimmed(title: string)
    ensures GenerateSlug(title) == Collapsed(title) && SlugText(Collapsed(title))
  {
    CollapsedShape(title);
  }

  /** The collapsed text is slug text and is left as it is by `trim()`. */
  lemma {:induction false} CollapsedShape(title: string)
    ensures SlugText(Collapsed(title)) && JsStrings.Trim(Collapsed(title)) == Collapsed(title)
  {
    var kept := KeepSlugChars(JsStrings.ToLower(title));
    ReplaceSpaceRunsChars(kept);
    CollapsedText(JsStrings.ReplaceSpaceRuns(kept, "-"));
    SlugCharsNoSpace(Collapsed(title));
  }

  /** Collapsing text of slug characters gives slug text. */
  lemma {:induction false} CollapsedText(spaced: string)
    requires SlugChars(spaced)
    ensures SlugText(CollapseHyphens(spaced))
  {
  }

  /** Slug characters only. */
  predicate SlugChars(s: string) {
    forall k :: 0 <= k < |s| ==> SlugChar(s[k])
  }

  /** No slug character is white space; so text of slug characters is left
      as it is by `trim()`. */
  lemma {:induction false} SlugCharsNoSpace(s: string)
    requires SlugChars(s)
    ensures forall k :: 0 <= k < |s| ==> !JsStrings.IsSpace(s[k])
    ensures JsStrings.Trim(s) == s
  {
    forall k | 0 <= k < |s|
      ensures !JsStrings.IsSpace(s[k])
    {
      assert SlugChar(s[k]);
    }
    JsStrings.TrimTrimmed(s);
  }

  /** Replacing white-space runs by `-` in kept text leaves slug characters
      and no white space. */
  lemma {:induction false} ReplaceSpaceRunsChars(s: string)
    requires forall k :: 0 <= k < |s| ==> SlugKept(s[k])
    ensures SlugChars(JsStrings.ReplaceSpaceRuns(s, "-"))
    decreases |s|
  {
    if s != [] {
      var head, t;
      if JsStrings.IsSpace(s[0]) {
        head, t := "-", JsStrings.TrimStart(s);
        assert forall k :: 0 <= k < |t| ==> t[k] == s[|s| - |t| + k];
      } else {
        head, t := [s[0]], s[1..];
      }
      ReplaceSpaceRunsChars(t);
      var rest := JsStrings.ReplaceSpaceRuns(t, "-");
      var r := JsStrings.ReplaceSpaceRuns(s, "-");
      assert r == head + rest;
      forall k | 0 <= k < |r|
        ensures SlugChar(r[k])
      {
        if k > 0 {
          assert r[k] == rest[k - 1];
        }
      }
    }
  }

  /** Lower-case letters, digits and blanks pass the first two steps
      unchanged. */
  lemma {:induction false} PlainTextKept(t: string)
    requires forall k :: 0 <= k < |t| ==> ('a' <= t[k] <= 'z') || ('0' <= t[k] <= '9') || t[k] == ' '
    ensures KeepSlugChars(JsStrings.ToLower(t)) == t
  {
    JsStrings.ToLowerAscii(t);
    assert JsStrings.ToLower(t) == t;
    KeptUnchanged(t);
  }

  lemma {:induction false} KeptUnchanged(t: string)
    requires forall k :: 0 <= k < |t| ==> SlugKept(t[k])
    ensures KeepSlugChars(t) == t
  {
    if t != [] {
      KeptUnchanged(t[1..]);
      assert [t[0]] + t[1..] == t;
    }
  }

  /** Text without `-` is left as it is by `CollapseHyphens`. */
  lemma {:induction false} CollapseNoHyphen(t: string)
    requires forall k :: 0 <= k < |t| ==> t[k] != '-'
    ensures CollapseHyphens(t) == t
  {
    if t != [] {
      CollapseNoHyphen(t[1..]);
      assert [t[0]] + t[1..] == t;
    }
  }

  /** Lower-case ASCII letters only. */
  predicate Letters(t: string) {
    forall k :: 0 <= k < |t| ==> 'a' <= t[k] <= 'z'
  }

  /** A leading blank before a word becomes `-`. */
  lemma {:induction false} LeadingBlankRun(t: string)
    requires t != [] && Letters(t)
    ensures JsStrings.ReplaceSpaceRuns([' '] + t, "-") == "-" + t
  {
    var s := [' '] + t;
    assert s[1..] == t;
    forall k | 0 <= k < |t|
      ensures !JsStrings.IsSpace(t[k])
    {
      assert 'a' <= t[k] <= 'z';
    }
    assert JsStrings.TrimStart(t) == t;
    assert JsStrings.TrimStart(s) == t;
    JsStrings.ReplaceSpaceRunsNoSpace(t, "-");
  }

  /** One `-` before text without `-` is left as it is. */
  lemma {:induction false} HyphenBeforePlain(t: string)
    requires forall k :: 0 <= k < |t| ==> t[k] != '-'
    ensures CollapseHyphens(['-'] + t) == ['-'] + t
  {
    var s := ['-'] + t;
    assert s[1..] == t;
    assert DropHyphens(t) == t;
    assert DropHyphens(s) == t;
    CollapseNoHyphen(t);
  }

  /** The steps before `trim()` turn a leading blank into `-`. */
  lemma {:induction false} CollapsedLeadingBlank(t: string)
    requires t != [] && Letters(t)
    ensures Collapsed([' '] + t) == ['-'] + t
  {
    var s := [' '] + t;
    forall k | 0 <= k < |s|
      ensures ('a' <= s[k] <= 'z') || ('0' <= s[k] <= '9') || s[k] == ' '
    {
      if k > 0 {
        assert s[k] == t[k - 1];
      }
    }
    PlainTextKept(s);
    LeadingBlankRun(t);
    HyphenBeforePlain(t);
  }

  /** A title with a leading blank gets a slug with a leading `-`:
      `trim()` removes white space, not the `-` a blank became. */
  lemma {:induction false} GenerateSlugLeadingHyphen(t: string)
    requires t != [] && Letters(t)
    ensures GenerateSlug([' '] + t) == ['-'] + t
  {
    CollapsedLeadingBlank(t);
    GenerateSlugUntrimmed([' '] + t);
  }

  /** The text without its trailing `-` characters. */
  function DropTrailingHyphens(s: string): (r: string)
    ensures |r| <= |s| && r == s[..|r|]
    ensures r == [] || r[|r| - 1] != '-'
  {
    s[..|s| - TrailingHyphens(s)]
  }

  /** The number of trailing `-` characters. */
  function TrailingHyphens(s: string): (n: nat)
    ensures n <= |s|
    ensures forall k :: |s| - n <= k < |s| ==> s[k] == '-'
    ensures n < |s| ==> s[|s| - n - 1] != '-'
  {
    if s != [] && s[|s| - 1] == '-' then
      var m := TrailingHyphens(s[..|s| - 1]);
      assert forall k :: |s| - 1 - m <= k < |s| - 1 ==> s[k] == s[..|s| - 1][k];
      m + 1
    else 0
  }

  /** The text without `-` at either end. */
  function StripHyphens(w: string): string {
    DropTrailingHyphens(DropHyphens(w))
  }

  /** What `generateSlug` produces: slug characters only (hence no white
      space), never two `-` in a row. */
  predicate SlugText(w: string) {
    SlugChars(w) && NoDoubleHyphen(w)
  }

  /** Stripping the ends keeps a slice of the text, so it keeps its shape,
      and leaves no `-` at either end. */
  lemma {:induction false} StripHyphensShape(w: string)
    requires SlugText(w)
    ensures var r := StripHyphens(w);
      exists i, j :: 0 <= i <= j <= |w| && r == w[i..j]
    ensures SlugText(StripHyphens(w))
    ensures var r := StripHyphens(w);
      r == [] || (r[0] != '-' && r[|r| - 1] != '-')
  {
    var r := StripHyphens(w);
    var i := |w| - |DropHyphens(w)|;
    StripHyphensSlice(w);
    SliceSlugText(w, i, i + |r|);
    assert 0 <= i <= i + |r| <= |w| && r == w[i..i + |r|];
  }

  /** Where the stripped text sits in the text. */
  lemma {:induction false} StripHyphensSlice(w: string)
    ensures var r := StripHyphens(w);
      var i := |w| - |DropHyphens(w)|;
      i + |r| <= |w| && r == w[i..i + |r|]
    ensures var r := StripHyphens(w);
      r == [] || (r[0] != '-' && r[|r| - 1] != '-')
  {
    var a := DropHyphens(w);
    var r := DropTrailingHyphens(a);
    var i := |w| - |a|;
    Strings.TakeOfDrop(w, i, |r|);
    if r != [] {
      assert r[0] == a[0];
    }
  }

  /** A slice of slug text is slug text. */
  lemma {:induction false} SliceSlugText(w: string, i: int, j: int)
    requires SlugText(w) && 0 <= i <= j <= |w|
    ensures SlugText(w[i..j])
  {
    var r := w[i..j];
    forall k | 0 <= k < |r|
      ensures SlugChar(r[k])
    {
      assert r[k] == w[i + k];
    }
    forall k | 0 <= k < |r| - 1
      ensures !DoubleHyphenAt(r, k)
    {
      assert r[k] == w[i + k] && r[k + 1] == w[i + k + 1];
      assert !DoubleHyphenAt(w, i + k);
    }
  }

  /** The slug the final `trim()` of `generateSlug` evidently meant: the
      same steps, then no `-` at either end. The editor itself uses
      `GenerateSlug`. */
  function CleanSlug(title: string): (r: string)
    ensures |r| <= |GenerateSlug(title)|
  {
    StripHyphens(GenerateSlug(title))
  }

  /** The cleaned slug is `generateSlug`'s without its `-` ends; it holds only
      slug characters (hence no white space and no `-` from the input),
      never two `-` in a row, and neither starts nor ends with `-`. */
  lemma {:induction false} CleanSlugShape(title: string)
    ensures var r := CleanSlug(title);
      var w := GenerateSlug(title);
      (exists i, j :: 0 <= i <= j <= |w| && r == w[i..j])
      && SlugText(r)
      && (r == [] || (r[0] != '-' && r[|r| - 1] != '-'))
  {
    GenerateSlugUntrimmed(title);
    StripHyphensShape(GenerateSlug(title));
  }

  /** When `generateSlug`'s slug has no `-` at its ends the two agree. */
  lemma {:induction false} CleanSlugAgrees(title: string)
    requires var w := GenerateSlug(title); w == [] || (w[0] != '-' && w[|w| - 1] != '-')
    ensures CleanSlug(title) == GenerateSlug(title)
  {
    var w := GenerateSlug(title);
    assert DropHyphens(w) == w;
  }

  /** Hyphens typed in a title are deleted, not kept: slugging a slug runs
      its words together ("news-update" becomes "newsupdate"), with or without
      the cleaned ends. */
  lemma {:induction false} HyphenDeleted(u: string, v: string)
    requires u != [] && Letters(u) && Letters(v)
    ensures GenerateSlug(u + "-" + v) == u + v && CleanSlug(u + "-" + v) == u + v
  {
    var t := u + "-" + v;
    HyphenatedLower(u, v);
    HyphenatedKept(u, v);
    LettersAppend(u, v);
    PlainWordSlug(t, u + v);
  }

  /** Two words joined by `-` are already lower case. */
  lemma {:induction false} HyphenatedLower(u: string, v: string)
    requires Letters(u) && Letters(v)
    ensures JsStrings.ToLower(u + "-" + v) == u + "-" + v
  {
    var t := u + "-" + v;
    forall k | 0 <= k < |t|
      ensures t[k] as int < 128 && !('A' <= t[k] <= 'Z')
    {
      if k < |u| {
        assert t[k] == u[k];
      } else if k > |u| {
        assert t[k] == v[k - |u| - 1];
      }
    }
    JsStrings.ToLowerAscii(t);
  }

  /** Deleting characters from two words joined by `-` drops the `-`. */
  lemma {:induction false} HyphenatedKept(u: string, v: string)
    requires Letters(u) && Letters(v)
    ensures KeepSlugChars(u + "-" + v) == u + v
  {
    KeepAppend(u + "-", v);
    KeepAppend(u, "-");
    KeptUnchanged(u);
    KeptUnchanged(v);
    assert KeepSlugChars("-") == [];
  }

  lemma {:induction false} LettersAppend(u: string, v: string)
    requires Letters(u) && Letters(v)
    ensures Letters(u + v)
  {
    forall k | 0 <= k < |u + v|
      ensures 'a' <= (u + v)[k] <= 'z'
    {
      if k >= |u| {
        assert (u + v)[k] == v[k - |u|];
      }
    }
  }

  /** `KeepSlugChars` works character by character. */
  lemma {:induction false} KeepAppend(a: string, b: string)
    ensures KeepSlugChars(a + b) == KeepSlugChars(a) + KeepSlugChars(b)
  {
    if a != [] {
      assert (a + b)[0] == a[0] && (a + b)[1..] == a[1..] + b;
      KeepAppend(a[1..], b);
    } else {
      assert a + b == b;
    }
  }

  /** A title whose kept characters form one lower-case word is slugged to
      that word, by `generateSlug` and by the cleaned variant alike. */
  lemma {:induction false} PlainWordSlug(title: string, w: string)
    requires KeepSlugChars(JsStrings.ToLower(title)) == w && w != [] && Letters(w)
    ensures GenerateSlug(title) == w && CleanSlug(title) == w
  {
    forall k | 0 <= k < |w|
      ensures !JsStrings.IsSpace(w[k]) && w[k] != '-'
    {
      assert 'a' <= w[k] <= 'z';
    }
    JsStrings.ReplaceSpaceRunsNoSpace(w, "-");
    CollapseNoHyphen(w);
    assert Collapsed(title) == w;
    GenerateSlugUntrimmed(title);
    assert LeadingHyphens(w) == 0;
    assert TrailingHyphens(w) == 0;
    assert DropHyphens(w) == w;
    assert DropTrailingHyphens(w) == w;
  }

  /** `generateCanonicalUrl`: `${origin}/blog/${slug}`. */
  function CanonicalUrl(origin: string, slug: string): (r: string)
    ensures |r| == |origin| + 6 + |slug|
    ensures r[..|origin|] == origin && r[|origin|..] == "/blog/" + slug
  {
    origin + "/blog/" + slug
  }

  // --------------------------------------------------------------- the form

  /** The fields of `EnhancedFormData` this logic touches. */
  datatype EditorForm = EditorForm(
    titleNl: string, titleEn: string,
    excerptNl: string, excerptEn: string,
    metaDescriptionNl: string, metaDescriptionEn: string,
    slugNl: string, slugEn: string,
    canonicalUrl: string,
    tagsNl: seq<string>, tagsEn: seq<string>,
    isPublished: bool)

  datatype Language = Nl | En

  function Tags(f: EditorForm, lang: Language): seq<string> {
    if lang == Nl then f.tagsNl else f.tagsEn
  }

  function WithTags(f: EditorForm, lang: Language, tags: seq<string>): (r: EditorForm)
    ensures Tags(r, lang) == tags
  {
    if lang == Nl then f.(tagsNl := tags) else f.(tagsEn := tags)
  }

  /** The two tag inputs, `newTagInput`. */
  datatype TagInputs = TagInputs(nl: string, en: string)

  function Input(i: TagInputs, lang: Language): string {
    if lang == Nl then i.nl else i.en
  }

  /** `addTag(language)`: the trimmed input of that language is appended to
      its list, and that input cleared, only when it is non-empty and not
      yet in the list. */
  function AddTag(f: EditorForm, inputs: TagInputs, lang: Language): (EditorForm, TagInputs) {
    var v := JsStrings.Trim(Input(inputs, lang));
    if v != "" && v !in Tags(f, lang) then
      (WithTags(f, lang, Tags(f, lang) + [v]), if lang == Nl then inputs.(nl := "") else inputs.(en := ""))
    else (f, inputs)
  }

  /** `filter((_, i) => i !== index)`. */
  function WithoutIndex(s: seq<string>, index: int): (r: seq<string>)
  {
    if s == [] then [] else (if index == 0 then [] else [s[0]]) + WithoutIndex(s[1..], index - 1)
  }

  /** `removeTag(language, index)`. */
  function RemoveTag(f: EditorForm, lang: Language, index: int): EditorForm {
    WithTags(f, lang, WithoutIndex(Tags(f, lang), index))
  }

  /** Removing drops exactly the element at the index and keeps the others
      in order; an index outside the list changes nothing. */
  lemma {:induction false} WithoutIndexIs(s: seq<string>, index: int)
    ensures 0 <= index < |s| ==> WithoutIndex(s, index) == s[..index] + s[index + 1..]
    ensures !(0 <= index < |s|) ==> WithoutIndex(s, index) == s
  {
    if s != [] {
      var rest := WithoutIndex(s[1..], index - 1);
      WithoutIndexIs(s[1..], index - 1);
      if index == 0 {
        assert WithoutIndex(s, index) == rest == s[1..];
      } else {
        assert WithoutIndex(s, index) == [s[0]] + rest;
        if 0 < index < |s| {
          assert s[1..][..index - 1] == s[1..index];
          assert s[1..][index - 1 + 1..] == s[index + 1..];
          assert [s[0]] + s[1..index] == s[..index];
        } else {
          assert rest == s[1..];
          assert [s[0]] + s[1..] == s;
        }
      }
    }
  }

  /** Adding a tag touches only that language's list and input, never
      introduces a duplicate, and a new tag lands at the end. */
  lemma {:induction false} AddTagEffect(f: EditorForm, inputs: TagInputs, lang: Language)
    ensures var (g, ins) := AddTag(f, inputs, lang);
      var v := JsStrings.Trim(Input(inputs, lang));
      var other := if lang == Nl then En else Nl;
      Tags(g, other) == Tags(f, other) && Input(ins, other) == Input(inputs, other)
      && g.(tagsNl := f.tagsNl, tagsEn := f.tagsEn) == f
      && (v != "" && v !in Tags(f, lang) ==> Tags(g, lang) == Tags(f, lang) + [v] && Input(ins, lang) == "")
      && (v == "" || v in Tags(f, lang) ==> g == f && ins == inputs)
  {
  }

  lemma {:induction false} AddTagDistinct(f: EditorForm, inputs: TagInputs, lang: Language)
    requires forall i, j :: 0 <= i < j < |Tags(f, lang)| ==> Tags(f, lang)[i] != Tags(f, lang)[j]
    ensures var t := Tags(AddTag(f, inputs, lang).0, lang);
      forall i, j :: 0 <= i < j < |t| ==> t[i] != t[j]
  {
    var v := JsStrings.Trim(Input(inputs, lang));
    if v != "" && v !in Tags(f, lang) {
      var xs := Tags(f, lang);
      var ys := xs + [v];
      assert Tags(AddTag(f, inputs, lang).0, lang) == ys;
      forall i, j | 0 <= i < j < |ys|
        ensures ys[i] != ys[j]
      {
        assert ys[i] == xs[i];
        if j < |xs| {
          assert ys[j] == xs[j];
        }
      }
    }
  }

  /** Removing the tag just added restores the list. */
  lemma {:induction false} RemoveAfterAddTag(f: EditorForm, inputs: TagInputs, lang: Language)
    requires var v := JsStrings.Trim(Input(inputs, lang)); v != "" && v !in Tags(f, lang)
    ensures RemoveTag(AddTag(f, inputs, lang).0, lang, |Tags(f, lang)|) == f
  {
    var t := Tags(f, lang);
    var v := JsStrings.Trim(Input(inputs, lang));
    WithoutIndexIs(t + [v], |t|);
    assert (t + [v])[..|t|] == t;
  }

  // --------------------------------------------------------- the autofills

  const META_DESCRIPTION_LENGTH: nat := 160

  /** One meta-description effect: an empty description takes the first
      160 characters of a non-empty excerpt. */
  function MetaAutofill(excerpt: string, meta: string): (r: string)
    ensures meta != "" || excerpt == "" ==> r == meta
    ensures meta == "" && excerpt != "" ==>
      r != "" && r <= excerpt && |r| == (if |excerpt| < META_DESCRIPTION_LENGTH then |excerpt| else META_DESCRIPTION_LENGTH)
  {
    if excerpt != "" && meta == "" then
      excerpt[..if |excerpt| < META_DESCRIPTION_LENGTH then |excerpt| else META_DESCRIPTION_LENGTH]
    else meta
  }

  /** Both meta-description effects. */
  function FillMetaDescriptions(f: EditorForm): EditorForm {
    f.(metaDescriptionNl := MetaAutofill(f.excerptNl, f.metaDescriptionNl),
       metaDescriptionEn := MetaAutofill(f.excerptEn, f.metaDescriptionEn))
  }

  /** Filling is settled after one round: a second round changes nothing. */
  lemma {:induction false} FillMetaIdempotent(f: EditorForm)
    ensures FillMetaDescriptions(FillMetaDescriptions(f)) == FillMetaDescriptions(f)
  {
  }

  /** The slug effects: while creating (no `editingId`), a non-empty Dutch
      title sets the Dutch slug and the canonical URL, and a non-empty
      English title the English slug. */
  function AutoSlugs(f: EditorForm, editing: bool, origin: string): (r: EditorForm)
    ensures editing ==> r == f
    ensures !editing && f.titleNl != "" ==> r.slugNl == GenerateSlug(f.titleNl) && r.canonicalUrl == CanonicalUrl(origin, r.slugNl)
    ensures !editing && f.titleEn != "" ==> r.slugEn == GenerateSlug(f.titleEn)
    ensures r.(slugNl := f.slugNl, slugEn := f.slugEn, canonicalUrl := f.canonicalUrl) == f
  {
    var g := if f.titleNl != "" && !editing then
      var s := GenerateSlug(f.titleNl); f.(slugNl := s, canonicalUrl := CanonicalUrl(origin, s))
    else f;
    if g.titleEn != "" && !editing then g.(slugEn := GenerateSlug(g.titleEn)) else g
  }

  /** The effects settle: running them again on the form they produced
      changes nothing, since the slugs depend on the titles alone. */
  lemma {:induction false} AutoSlugsSettled(f: EditorForm, editing: bool, origin: string)
    ensures AutoSlugs(AutoSlugs(f, editing, origin), editing, origin) == AutoSlugs(f, editing, origin)
  {
  }

  /** While creating, every slug the effects set is slug text, and the
      canonical URL is the origin, `/blog/` and that slug. */
  lemma {:induction false} AutoSlugsShape(f: EditorForm, origin: string)
    requires f.titleNl != "" && f.titleEn != ""
    ensures var r := AutoSlugs(f, false, origin);
      SlugText(r.slugNl) && SlugText(r.slugEn)
      && r.canonicalUrl[..|origin|] == origin && r.canonicalUrl[|origin|..] == "/blog/" + r.slugNl
  {
  }

  /** As written, a Dutch title with a leading blank gives a slug, and a
      canonical URL, with a `-` in front: ` news` gives `-news` and
      `<origin>/blog/-news`. */
  lemma {:induction false} AutoSlugsLeadingHyphen(f: EditorForm, t: string, origin: string)
    requires t != [] && Letters(t) && f.titleNl == [' '] + t
    ensures AutoSlugs(f, false, origin).slugNl == ['-'] + t
    ensures AutoSlugs(f, false, origin).canonicalUrl == origin + "/blog/-" + t
  {
    var slug := GenerateSlug(f.titleNl);
    GenerateSlugLeadingHyphen(t);
    assert slug == ['-'] + t;
    UrlOfHyphenated(origin, t);
  }

  /** The canonical URL of a slug that starts with `-`. */
  lemma {:induction false} UrlOfHyphenated(origin: string, t: string)
    ensures CanonicalUrl(origin, ['-'] + t) == origin + "/blog/-" + t
  {
  }

  // ---------------------------------------------------------- publishedAt

  /** A row of the article list: its id and its `publishedAt`. */
  datatype ArticleRow = ArticleRow(id: string, publishedAt: Option<string>)

  /** `articles.find(a => a.id === id)?.publishedAt`; `None` both for a
      missing article and for `null`. */
  function RecordedPublishedAt(articles: seq<ArticleRow>, id: string): (r: Option<string>)
    ensures r.Some? ==> exists k :: 0 <= k < |articles| && articles[k].id == id && articles[k].publishedAt == r
  {
    if articles == [] then None
    else if articles[0].id == id then articles[0].publishedAt
    else RecordedPublishedAt(articles[1..], id)
  }

  predicate Truthy(o: Option<string>) {
    o.Some? && o.value != ""
  }

  /** The create payload's `publishedAt`: now when published, else `null`. */
  function CreatePublishedAt(isPublished: bool, now: string): Option<string> {
    if isPublished then Some(now) else None
  }

  /** The update payload's `publishedAt`: now when publishing an article
      with no date recorded, and the recorded value otherwise. */
  function UpdatePublishedAt(isPublished: bool, recorded: Option<string>, now: string): (r: Option<string>)
    ensures Truthy(recorded) ==> r == recorded
    ensures r == Some(now) || r == recorded
  {
    if isPublished && !Truthy(recorded) then Some(now) else recorded
  }

  /** `handleSubmit`: the `publishedAt` sent, for an update when an id is
      being edited and for a create otherwise. */
  function SubmitPublishedAt(editingId: Option<string>, articles: seq<ArticleRow>, isPublished: bool, now: string): Option<string> {
    if editingId.Some? && editingId.value != "" then
      UpdatePublishedAt(isPublished, RecordedPublishedAt(articles, editingId.value), now)
    else CreatePublishedAt(isPublished, now)
  }

  /** A recorded date is never replaced; a new date is set only when
      publishing; a create is dated exactly when published. */
  lemma {:induction false} PublishedAtRules(editingId: Option<string>, articles: seq<ArticleRow>, isPublished: bool, now: string)
    ensures var r := SubmitPublishedAt(editingId, articles, isPublished, now);
      (editingId.None? || editingId.value == "" ==> (r.Some? <==> isPublished) && (r.Some? ==> r.value == now))
      && (editingId.Some? && editingId.value != "" ==>
            var rec := RecordedPublishedAt(articles, editingId.value);
            (Truthy(rec) ==> r == rec)
            && (!Truthy(rec) && isPublished ==> r == Some(now))
            && (!isPublished ==> r == rec))
  {
  }
}
