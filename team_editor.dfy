/** The state updates of `src/components/admin/team-editor.tsx`: editing a
    member's specialty list, and the normalisation of the member and
    settings forms into the records sent to the API. */
module TeamEditor {
  import opened Wrappers
  import Strings
  import JsStrings

  /** `TeamMemberFormData`. */
  datatype MemberForm = MemberForm(
    nameNl: string,
    nameEn: string,
    titleNl: string,
    titleEn: string,
    bioNl: string,
    bioEn: string,
    department: string,
    email: string,
    phone: string,
    image: string,
    linkedinUrl: string,
    twitterUrl: string,
    startDate: string,
    experienceYears: Option<int>,
    specialties: seq<string>,
    showContactInfo: bool)

  /** The member record sent to the API; `None` is `null`. */
  datatype MemberData = MemberData(
    nameNl: string,
    nameEn: string,
    titleNl: string,
    titleEn: string,
    bioNl: Option<string>,
    bioEn: Option<string>,
    department: Option<string>,
    email: Option<string>,
    phone: Option<string>,
    image: Option<string>,
    linkedinUrl: Option<string>,
    twitterUrl: Option<string>,
    startDate: Option<string>,
    experienceYears: Option<int>,
    specialties: seq<string>,
    showContactInfo: bool)

  // ---------------------------------------------------------- specialties

  predicate Distinct(s: seq<string>) {
    forall i, j :: 0 <= i < j < |s| ==> s[i] != s[j]
  }

  /** `addSpecialty`: the new form and the new input text. The trimmed
      input is appended, and the input cleared, only when it is non-empty
      and not yet listed. */
  function AddSpecialty(form: MemberForm, input: string): (MemberForm, string) {
    var s := JsStrings.Trim(input);
    if s != "" && s !in form.specialties then (form.(specialties := form.specialties + [s]), "")
    else (form, input)
  }

  predicate Differs(v: string, s: string) {
    s != v
  }

  /** `removeSpecialty`: `specialties.filter(s => s !== specialty)`. */
  function RemoveSpecialty(form: MemberForm, specialty: string): MemberForm {
    form.(specialties := Strings.Filter(form.specialties, s => Differs(specialty, s)))
  }

  /** Adding appends exactly the trimmed input when it is new and not
      blank, and clears the input exactly then; otherwise nothing changes. */
  lemma {:induction false} AddSpecialtyEffect(form: MemberForm, input: string)
    ensures var (f, rest) := AddSpecialty(form, input);
      var s := JsStrings.Trim(input);
      ((rest == "" && f.specialties == form.specialties + [s] && f == form.(specialties := f.specialties))
       <==> (s != "" && s !in form.specialties))
      && (s == "" || s in form.specialties ==> f == form && rest == input)
  {
  }

  /** Adding never introduces a duplicate, and every listed specialty is
      non-blank and trimmed if it was so before. */
  lemma {:induction false} AddSpecialtyDistinct(form: MemberForm, input: string)
    requires Distinct(form.specialties)
    requires forall k :: 0 <= k < |form.specialties| ==> form.specialties[k] != "" && JsStrings.Trimmed(form.specialties[k])
    ensures var f := AddSpecialty(form, input).0;
      Distinct(f.specialties)
      && forall k :: 0 <= k < |f.specialties| ==> f.specialties[k] != "" && JsStrings.Trimmed(f.specialties[k])
  {
    var t := JsStrings.Trim(input);
    if t != "" && t !in form.specialties {
      var xs := form.specialties;
      var ys := xs + [t];
      assert AddSpecialty(form, input).0.specialties == ys;
      JsStrings.TrimProperties(input);
      assert JsStrings.Trimmed(t);
      forall i, j | 0 <= i < j < |ys|
        ensures ys[i] != ys[j]
      {
        assert ys[i] == xs[i];
        if j < |xs| {
          assert ys[j] == xs[j];
        }
      }
      forall k | 0 <= k < |ys|
        ensures ys[k] != "" && JsStrings.Trimmed(ys[k])
      {
        if k < |xs| {
          assert ys[k] == xs[k];
        }
      }
    }
  }

  /** Removing drops every occurrence of the value and keeps the other
      entries in order. */
  lemma {:induction false} RemoveSpecialtyEffect(form: MemberForm, specialty: string)
    ensures var f := RemoveSpecialty(form, specialty);
      specialty !in f.specialties
      && (forall s :: s in f.specialties <==> s in form.specialties && s != specialty)
      && f == form.(specialties := f.specialties)
  {
  }

  /** Removing what was just added restores the list. */
  lemma {:induction false} RemoveAfterAdd(form: MemberForm, input: string)
    requires JsStrings.Trim(input) != "" && JsStrings.Trim(input) !in form.specialties
    ensures RemoveSpecialty(AddSpecialty(form, input).0, JsStrings.Trim(input)) == form
  {
    var s := JsStrings.Trim(input);
    FilterOthers(form.specialties, s);
    FilterAppend(form.specialties, s);
  }

  lemma {:induction false} FilterOthers(xs: seq<string>, v: string)
    requires v !in xs
    ensures Strings.Filter(xs, s => Differs(v, s)) == xs
  {
    if xs != [] {
      FilterOthers(xs[1..], v);
      Strings.FilterCons(xs[0], xs[1..], s => Differs(v, s));
      assert xs == [xs[0]] + xs[1..];
    }
  }

  lemma {:induction false} FilterAppend(xs: seq<string>, v: string)
    ensures Strings.Filter(xs + [v], s => Differs(v, s)) == Strings.Filter(xs, s => Differs(v, s))
  {
    if xs == [] {
      assert [v][1..] == [];
    } else {
      FilterAppend(xs[1..], v);
      assert (xs + [v])[1..] == xs[1..] + [v];
    }
  }

  // ------------------------------------------------------------ member form

  /** `value || null` for a text field. */
  function OrNull(s: string): (r: Option<string>)
    ensures r.None? <==> s == ""
    ensures r.Some? ==> r.value == s
  {
    if s == "" then None else Some(s)
  }

  /** `value.trim() ? value.trim() : null`. */
  function TrimmedOrNull(s: string): (r: Option<string>)
    ensures r.None? <==> JsStrings.AllSpace(s)
    ensures r.Some? ==> r.value == JsStrings.Trim(s) && r.value != "" && JsStrings.Trimmed(r.value)
  {
    JsStrings.TrimProperties(s);
    var t := JsStrings.Trim(s);
    if t != "" then Some(t) else None
  }

  /** `handleMemberSubmit`'s `submitData`. */
  function MemberSubmit(f: MemberForm): MemberData {
    MemberData(
      f.nameNl,
      if f.nameEn != "" then f.nameEn else f.nameNl,
      f.titleNl,
      if f.titleEn != "" then f.titleEn else f.titleNl,
      OrNull(f.bioNl), OrNull(f.bioEn), OrNull(f.department),
      TrimmedOrNull(f.email), TrimmedOrNull(f.phone),
      OrNull(f.image), OrNull(f.linkedinUrl), OrNull(f.twitterUrl), OrNull(f.startDate),
      f.experienceYears, f.specialties, f.showContactInfo)
  }

  datatype MemberRequest = UpdateMember(id: string, data: MemberData) | CreateMember(data: MemberData)

  /** An update when an id is being edited (a non-empty one), a create
      otherwise. */
  function HandleMemberSubmit(editingId: Option<string>, f: MemberForm): (r: MemberRequest)
    ensures r.UpdateMember? <==> editingId.Some? && editingId.value != ""
    ensures r.UpdateMember? ==> r.id == editingId.value
    ensures r.data == MemberSubmit(f)
  {
    if editingId.Some? && editingId.value != "" then UpdateMember(editingId.value, MemberSubmit(f))
    else CreateMember(MemberSubmit(f))
  }

  /** The English name and title fall back to the Dutch ones when empty;
      empty optional texts are sent as `null`; email and phone are sent
      trimmed, or as `null` when blank; the rest is passed on unchanged. */
  lemma {:induction false} MemberSubmitFields(f: MemberForm)
    ensures var d := MemberSubmit(f);
      d.nameNl == f.nameNl && d.titleNl == f.titleNl
      && (d.nameEn == if f.nameEn == "" then f.nameNl else f.nameEn)
      && (d.titleEn == if f.titleEn == "" then f.titleNl else f.titleEn)
      && (d.nameEn == "" ==> f.nameNl == "" && f.nameEn == "")
      && (d.bioNl.None? <==> f.bioNl == "") && (d.bioEn.None? <==> f.bioEn == "")
      && (d.department.None? <==> f.department == "") && (d.image.None? <==> f.image == "")
      && (d.linkedinUrl.None? <==> f.linkedinUrl == "") && (d.twitterUrl.None? <==> f.twitterUrl == "")
      && (d.startDate.None? <==> f.startDate == "")
      && (d.email.None? <==> JsStrings.AllSpace(f.email)) && (d.phone.None? <==> JsStrings.AllSpace(f.phone))
      && (d.email.Some? ==> d.email.value == JsStrings.Trim(f.email))
      && (d.phone.Some? ==> d.phone.value == JsStrings.Trim(f.phone))
      && d.experienceYears == f.experienceYears && d.specialties == f.specialties
      && d.showContactInfo == f.showContactInfo
  {
  }

  // ---------------------------------------------------------- settings form

  /** `TeamSettingsFormData`. */
  datatype SettingsForm = SettingsForm(
    pageTitleNl: string, pageTitleEn: string,
    pageDescriptionNl: string, pageDescriptionEn: string,
    metaTitleNl: string, metaTitleEn: string,
    metaDescriptionNl: string, metaDescriptionEn: string,
    ctaTitleNl: string, ctaTitleEn: string,
    ctaDescriptionNl: string, ctaDescriptionEn: string,
    ctaButtonTextNl: string, ctaButtonTextEn: string,
    ctaButtonUrlNl: string, ctaButtonUrlEn: string,
    pageShowBios: bool, pageShowDepartments: bool, pageShowExperience: bool,
    pageShowSkills: bool, pageShowSocial: bool,
    pageItemsPerRow: int,
    enableSearch: bool, enableDepartmentFilter: bool,
    imageShape: string)

  /** The settings record sent to the API. */
  datatype SettingsData = SettingsData(
    pageTitleNl: Option<string>, pageTitleEn: Option<string>,
    pageDescriptionNl: Option<string>, pageDescriptionEn: Option<string>,
    metaTitleNl: Option<string>, metaTitleEn: Option<string>,
    metaDescriptionNl: Option<string>, metaDescriptionEn: Option<string>,
    ctaTitleNl: Option<string>, ctaTitleEn: Option<string>,
    ctaDescriptionNl: Option<string>, ctaDescriptionEn: Option<string>,
    ctaButtonTextNl: Option<string>, ctaButtonTextEn: Option<string>,
    ctaButtonUrlNl: Option<string>, ctaButtonUrlEn: Option<string>,
    pageShowBios: bool, pageShowDepartments: bool, pageShowExperience: bool,
    pageShowSkills: bool, pageShowSocial: bool,
    pageItemsPerRow: int,
    enableSearch: bool, enableDepartmentFilter: bool,
    imageShape: string)

  /** `handleSettingsSubmit`'s `submitData`. */
  function SettingsSubmit(f: SettingsForm): SettingsData {
    SettingsData(
      OrNull(f.pageTitleNl), OrNull(f.pageTitleEn),
      OrNull(f.pageDescriptionNl), OrNull(f.pageDescriptionEn),
      OrNull(f.metaTitleNl), OrNull(f.metaTitleEn),
      OrNull(f.metaDescriptionNl), OrNull(f.metaDescriptionEn),
      OrNull(f.ctaTitleNl), OrNull(f.ctaTitleEn),
      OrNull(f.ctaDescriptionNl), OrNull(f.ctaDescriptionEn),
      OrNull(f.ctaButtonTextNl), OrNull(f.ctaButtonTextEn),
      OrNull(f.ctaButtonUrlNl), OrNull(f.ctaButtonUrlEn),
      f.pageShowBios, f.pageShowDepartments, f.pageShowExperience,
      f.pageShowSkills, f.pageShowSocial,
      f.pageItemsPerRow,
      f.enableSearch, f.enableDepartmentFilter,
      f.imageShape)
  }

  /** The texts the API stores back as `''` when `null` arrives. */
  function Reload(o: Option<string>): string {
    if o.Some? then o.value else ""
  }

  /** Every text survives the `null` mapping: reading `null` back as `''`
      gives the form's text again; flags, the number per row and the image
      shape are passed on unchanged. */
  lemma {:induction false} SettingsSubmitFields(f: SettingsForm)
    ensures var d := SettingsSubmit(f);
      Reload(d.pageTitleNl) == f.pageTitleNl && Reload(d.pageTitleEn) == f.pageTitleEn
      && Reload(d.pageDescriptionNl) == f.pageDescriptionNl && Reload(d.pageDescriptionEn) == f.pageDescriptionEn
      && Reload(d.metaTitleNl) == f.metaTitleNl && Reload(d.metaTitleEn) == f.metaTitleEn
      && Reload(d.metaDescriptionNl) == f.metaDescriptionNl && Reload(d.metaDescriptionEn) == f.metaDescriptionEn
      && Reload(d.ctaTitleNl) == f.ctaTitleNl && Reload(d.ctaTitleEn) == f.ctaTitleEn
      && Reload(d.ctaDescriptionNl) == f.ctaDescriptionNl && Reload(d.ctaDescriptionEn) == f.ctaDescriptionEn
      && Reload(d.ctaButtonTextNl) == f.ctaButtonTextNl && Reload(d.ctaButtonTextEn) == f.ctaButtonTextEn
      && Reload(d.ctaButtonUrlNl) == f.ctaButtonUrlNl && Reload(d.ctaButtonUrlEn) == f.ctaButtonUrlEn
      && (d.pageTitleNl.None? <==> f.pageTitleNl == "")
      && d.pageShowBios == f.pageShowBios && d.pageShowDepartments == f.pageShowDepartments
      && d.pageShowExperience == f.pageShowExperience && d.pageShowSkills == f.pageShowSkills
      && d.pageShowSocial == f.pageShowSocial && d.pageItemsPerRow == f.pageItemsPerRow
      && d.enableSearch == f.enableSearch && d.enableDepartmentFilter == f.enableDepartmentFilter
      && d.imageShape == f.imageShape
  {
  }
}
