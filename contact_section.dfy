/** The logic of the public contact form, `src/components/contact-section.tsx`:
    the required-field check of `handleSubmit`, what `renderFormField`
    shows for a setting, the value of a select option and
    `getContactInfoByType`. The form values are a map from field key to
    text; a key the map lacks reads as `undefined`. */
module ContactSection {
  import opened Wrappers
  import Strings
  import JsStrings

  /** The columns of a contact-form setting the form reads; `isRequired`
      and `isVisible` are nullable booleans. */
  datatype Setting = Setting(fieldKey: string, labelNl: string, labelEn: string,
                             isRequired: Option<bool>, isVisible: Option<bool>)

  type FormData = map<string, string>

  /** JavaScript truthiness of a nullable boolean. */
  predicate IsSet(b: Option<bool>) {
    b == Some(true)
  }

  /** `!formData[fieldKey] || formData[fieldKey].trim() === ''`. */
  predicate Blank(data: FormData, key: string) {
    key !in data || data[key] == "" || JsStrings.Trim(data[key]) == ""
  }

  /** The check of the two `filter` calls. */
  predicate Missing(s: Setting, data: FormData) {
    IsSet(s.isVisible) && IsSet(s.isRequired) && Blank(data, s.fieldKey)
  }

  /** `missingRequiredFields`, in settings order. */
  function MissingFields(settings: seq<Setting>, data: FormData): (r: seq<Setting>)
    ensures |r| <= |settings|
  {
    if settings == [] then []
    else (if Missing(settings[0], data) then [settings[0]] else []) + MissingFields(settings[1..], data)
  }

  /** The label shown: Dutch for `nl`, English for every other language. */
  function Label(s: Setting, lang: string): string {
    if lang == "nl" then s.labelNl else s.labelEn
  }

  function Labels(fields: seq<Setting>, lang: string): (r: seq<string>)
    ensures |r| == |fields|
    ensures forall k :: 0 <= k < |fields| ==> r[k] == Label(fields[k], lang)
  {
    if fields == [] then [] else [Label(fields[0], lang)] + Labels(fields[1..], lang)
  }

  datatype Outcome = ValidationError(title: string, description: string) | Submitted(data: FormData)

  /** `handleSubmit`: a destructive toast naming the missing fields, or the
      form values handed to the mutation. */
  function HandleSubmit(settings: seq<Setting>, data: FormData, language: string): (r: Outcome)
    ensures r.Submitted? <==> MissingFields(settings, data) == []
    ensures r.Submitted? ==> r.data == data
  {
    var missing := MissingFields(settings, data);
    if |missing| > 0 then
      var nl := language == "nl";
      var names := Strings.Join(Labels(missing, if nl then "nl" else "en"), ", ");
      ValidationError(if nl then "Validatiefout" else "Validation Error",
                      if nl then "Vul de volgende verplichte velden in: " + names
                      else "Please fill in the following required fields: " + names)
    else Submitted(data)
  }

  // ------------------------------------------------------------ properties

  /** A setting is reported exactly when it is in the list, visible,
      required and its value is absent, empty or white space. */
  lemma {:induction false} MissingFieldsMembers(settings: seq<Setting>, data: FormData, s: Setting)
    ensures s in MissingFields(settings, data) <==> s in settings && Missing(s, data)
  {
    if settings != [] {
      MissingFieldsMembers(settings[1..], data, s);
      assert settings == [settings[0]] + settings[1..];
    }
  }

  /** The report keeps settings order: the missing fields of two lists
      one after the other are those of the first, then those of the
      second. */
  lemma {:induction false} MissingFieldsAppend(a: seq<Setting>, b: seq<Setting>, data: FormData)
    ensures MissingFields(a + b, data) == MissingFields(a, data) + MissingFields(b, data)
  {
    if a == [] {
      assert a + b == b;
    } else {
      var h := if Missing(a[0], data) then [a[0]] else [];
      assert (a + b)[0] == a[0] && (a + b)[1..] == a[1..] + b;
      assert MissingFields(a + b, data) == h + MissingFields(a[1..] + b, data);
      MissingFieldsAppend(a[1..], b, data);
      assert MissingFields(a, data) == h + MissingFields(a[1..], data);
    }
  }

  /** The toast lists the missing labels joined by ", ", Dutch for `nl`
      and English otherwise. */
  lemma {:induction false} ValidationMessage(settings: seq<Setting>, data: FormData, language: string)
    requires MissingFields(settings, data) != []
    ensures var names := Strings.Join(Labels(MissingFields(settings, data), language), ", ");
      HandleSubmit(settings, data, language) ==
        if language == "nl" then ValidationError("Validatiefout", "Vul de volgende verplichte velden in: " + names)
        else ValidationError("Validation Error", "Please fill in the following required fields: " + names)
  {
    var missing := MissingFields(settings, data);
    if language != "nl" {
      assert Labels(missing, "en") == Labels(missing, language);
    }
  }

  /** The fields whose key is not `key`, in order. */
  function WithoutKey(fields: seq<Setting>, key: string): (r: seq<Setting>)
    ensures forall k :: 0 <= k < |r| ==> r[k].fieldKey != key
  {
    if fields == [] then []
    else (if fields[0].fieldKey != key then [fields[0]] else []) + WithoutKey(fields[1..], key)
  }

  /** Filling a field in with text that is not all white space takes it
      out of the report and adds nothing. */
  lemma {:induction false} FillingRemoves(settings: seq<Setting>, data: FormData, key: string, value: string)
    requires JsStrings.Trim(value) != ""
    ensures MissingFields(settings, data[key := value]) == WithoutKey(MissingFields(settings, data), key)
  {
    if settings != [] {
      var s0 := settings[0];
      var filled := data[key := value];
      FillingRemoves(settings[1..], data, key, value);
      assert Missing(s0, filled) <==> Missing(s0, data) && s0.fieldKey != key by {
        if s0.fieldKey != key {
          assert Blank(filled, s0.fieldKey) == Blank(data, s0.fieldKey);
        }
      }
      var rest := MissingFields(settings[1..], data);
      var head := if Missing(s0, filled) then [s0] else [];
      assert MissingFields(settings, filled) == head + WithoutKey(rest, key);
      if Missing(s0, data) {
        var all := [s0] + rest;
        assert MissingFields(settings, data) == all;
        assert all[0] == s0 && all[1..] == rest;
        assert WithoutKey(all, key) == head + WithoutKey(rest, key);
      } else {
        assert MissingFields(settings, data) == rest;
      }
    }
  }

  // ------------------------------------------------------------ rendering

  /** What `renderFormField` shows: the label and the required marker. */
  datatype Rendered = Rendered(caption: string, required: bool)

  /** `renderFormField`: nothing for an invisible setting; `isRequired ??
      true` marks the field. */
  function RenderField(s: Setting, lang: string): (r: Option<Rendered>)
    ensures r.None? <==> !IsSet(s.isVisible)
    ensures r.Some? ==> r.value.caption == Label(s, lang) && (r.value.required <==> s.isRequired != Some(false))
  {
    if !IsSet(s.isVisible) then None
    else Some(Rendered(Label(s, lang), s.isRequired.GetOr(true)))
  }

  /** A visible field whose `isRequired` is `null` is marked required, yet
      `handleSubmit` lets it through blank. */
  lemma {:induction false} NullRequiredNotChecked(s: Setting, data: FormData, lang: string)
    requires IsSet(s.isVisible) && s.isRequired.None?
    ensures RenderField(s, lang).Some? && RenderField(s, lang).value.required
    ensures MissingFields([s], data) == []
  {
  }

  /** `option.toLowerCase().replace(/\s+/g, '-')`. */
  function OptionValue(option: string): (r: string)
    ensures forall k :: 0 <= k < |r| ==> !JsStrings.IsSpace(r[k])
  {
    JsStrings.ReplaceSpaceRuns(JsStrings.ToLower(option), "-")
  }

  /** An ASCII option without white space only has its letters lowered. */
  lemma {:induction false} OptionValueAscii(option: string)
    requires forall k :: 0 <= k < |option| ==> option[k] as int < 128 && !JsStrings.IsSpace(option[k])
    ensures |OptionValue(option)| == |option|
    ensures forall k :: 0 <= k < |option| ==>
      OptionValue(option)[k] == if 'A' <= option[k] <= 'Z' then (option[k] as int + 32) as char else option[k]
  {
    JsStrings.ToLowerAscii(option);
    var lower := JsStrings.ToLower(option);
    assert forall k :: 0 <= k < |lower| ==> !JsStrings.IsSpace(lower[k]);
    JsStrings.ReplaceSpaceRunsNoSpace(lower, "-");
  }

  // --------------------------------------------------------- contact info

  /** The columns of a contact-info row the lookup reads. */
  datatype ContactInfo = ContactInfo(id: string, infoType: string, value: string, isActive: Option<bool>)

  /** `getContactInfoByType`: `find` over the rows. */
  function ContactInfoByType(infos: seq<ContactInfo>, infoType: string): (r: Option<ContactInfo>)
  {
    if infos == [] then None
    else if infos[0].infoType == infoType && IsSet(infos[0].isActive) then Some(infos[0])
    else ContactInfoByType(infos[1..], infoType)
  }

  /** The lookup finds an active row of the type preceded by none, and
      finds nothing exactly when there is no active row of the type. */
  lemma {:induction false} ContactInfoByTypeFirst(infos: seq<ContactInfo>, infoType: string)
    ensures var r := ContactInfoByType(infos, infoType);
      (r.None? <==> forall k :: 0 <= k < |infos| ==> !(infos[k].infoType == infoType && IsSet(infos[k].isActive)))
      && (r.Some? ==> r.value.infoType == infoType && IsSet(r.value.isActive))
      && (r.Some? ==>
            exists k :: 0 <= k < |infos| && infos[k] == r.value
              && (forall j :: 0 <= j < k ==> !(infos[j].infoType == infoType && IsSet(infos[j].isActive))))
  {
    if infos != [] && !(infos[0].infoType == infoType && IsSet(infos[0].isActive)) {
      ContactInfoByTypeFirst(infos[1..], infoType);
      var r := ContactInfoByType(infos, infoType);
      if r.Some? {
        var k :| 0 <= k < |infos| - 1 && infos[1..][k] == r.value
          && forall j :: 0 <= j < k ==> !(infos[1..][j].infoType == infoType && IsSet(infos[1..][j].isActive));
        assert infos[k + 1] == r.value;
        forall j | 0 <= j < k + 1
          ensures !(infos[j].infoType == infoType && IsSet(infos[j].isActive))
        {
          if j > 0 {
            assert infos[j] == infos[1..][j - 1];
          }
        }
      } else {
        forall k | 0 <= k < |infos|
          ensures !(infos[k].infoType == infoType && IsSet(infos[k].isActive))
        {
          if k > 0 {
            assert infos[k] == infos[1..][k - 1];
          }
        }
      }
    }
  }
}
