/**
 * The site form (src/components/site/SiteForm.tsx): required-field
 * validation, per-field error clearing, and save-then-reset on submit.
 */
module SiteForm {
  import opened Wrappers
  import opened Text
  import opened Domain

  datatype Data = Data(id: Option<int>, name: string, address: string, insuranceGroupId: int)

  /** One message per field; the empty string means no error. */
  datatype Errors = Errors(name: string, address: string, insuranceGroupId: string)

  /** `site` is the site being edited, absent when creating. */
  datatype State = State(site: Option<Site>, data: Data, errors: Errors)

  const DefaultData: Data := Data(None, "", "", 0)
  const NoErrors: Errors := Errors("", "", "")

  const NameRequired: string := "Site name is required"
  const AddressRequired: string := "Address is required"
  const GroupRequired: string := "Please select an insurance group"

  /** The form once mounted: defaults, or the edited site's fields after the seeding effect. */
  function Init(site: Option<Site>): (st: State)
    ensures st.errors == NoErrors && st.site == site
    ensures site.None? ==> st.data == DefaultData
    ensures site.Some? ==> st.data == Data(Some(site.value.id), site.value.name, site.value.address,
                                           site.value.insuranceGroupId)
  {
    match site
    case None => State(None, DefaultData, NoErrors)
    case Some(s) => State(site, Data(Some(s.id), s.name, s.address, s.insuranceGroupId), NoErrors)
  }

  datatype TextField = NameField | AddressField

  /** `handleChange`: stores the typed text and clears that field's error alone. */
  function HandleChange(st: State, field: TextField, value: string): (r: State)
    ensures r.site == st.site && r.data.id == st.data.id && r.data.insuranceGroupId == st.data.insuranceGroupId
    ensures field == NameField ==>
              r.data.name == value && r.data.address == st.data.address
              && r.errors == st.errors.(name := "")
    ensures field == AddressField ==>
              r.data.address == value && r.data.name == st.data.name
              && r.errors == st.errors.(address := "")
  {
    match field
    case NameField =>
      var errors := if st.errors.name != "" then st.errors.(name := "") else st.errors;
      st.(data := st.data.(name := value), errors := errors)
    case AddressField =>
      var errors := if st.errors.address != "" then st.errors.(address := "") else st.errors;
      st.(data := st.data.(address := value), errors := errors)
  }

  /**
   * `handleSelectChange`: the chosen option's value is `String(group.id)`,
   * read back with `parseInt`. NaN is stored as 0: both are falsy, and the
   * form only tests the id's truthiness before saving it.
   */
  function HandleSelectChange(st: State, value: string): (r: State)
    ensures r.site == st.site && r.data == st.data.(insuranceGroupId := r.data.insuranceGroupId)
    ensures r.errors == st.errors.(insuranceGroupId := "")
  {
    var errors := if st.errors.insuranceGroupId != "" then st.errors.(insuranceGroupId := "") else st.errors;
    st.(data := st.data.(insuranceGroupId := ParseInt(value).GetOr(0)), errors := errors)
  }

  /** Picking a group from the list stores exactly that group's id. */
  lemma SelectGroupStoresItsId(st: State, g: InsuranceGroup)
    ensures HandleSelectChange(st, IntToString(g.id)).data.insuranceGroupId == g.id
  {
    ParseIntOfIntToString(g.id);
  }

  /** `validate`: a message for each required field left empty, or for group 0. */
  function Validate(data: Data): (e: Errors)
    ensures e.name != "" <==> data.name == ""
    ensures e.address != "" <==> data.address == ""
    ensures e.insuranceGroupId != "" <==> data.insuranceGroupId == 0
  {
    Errors(
      if data.name != "" then "" else NameRequired,
      if data.address != "" then "" else AddressRequired,
      if data.insuranceGroupId != 0 then "" else GroupRequired)
  }

  predicate IsValid(e: Errors) {
    e.name == "" && e.address == "" && e.insuranceGroupId == ""
  }

  /**
   * `handleSubmit`: when the data validates, the site is handed to `onSave`
   * (keeping the edited site's id, or 0 when creating) and the form is
   * reset; otherwise nothing is saved and the errors are shown.
   */
  function HandleSubmit(st: State): (r: (State, Option<Site>))
    ensures r.1.Some? <==> st.data.name != "" && st.data.address != "" && st.data.insuranceGroupId != 0
    ensures r.1.Some? ==>
              && r.1.value.id == (if st.site.Some? then st.site.value.id else 0)
              && r.1.value.name == st.data.name && r.1.value.address == st.data.address
              && r.1.value.insuranceGroupId == st.data.insuranceGroupId
              && r.0 == State(st.site, DefaultData, NoErrors)
    ensures r.1.None? ==> r.0 == st.(errors := Validate(st.data)) && !IsValid(r.0.errors)
  {
    var errors := Validate(st.data);
    if !IsValid(errors) then (st.(errors := errors), None)
    else
      var id := if st.site.Some? then st.site.value.id else 0;
      var saved := Site(id, st.data.name, st.data.address, st.data.insuranceGroupId);
      (State(st.site, DefaultData, NoErrors), Some(saved))
  }

  /** Submitting an edit form untouched saves the edited site back unchanged. */
  lemma EditRoundTrip(s: Site)
    requires s.name != "" && s.address != "" && s.insuranceGroupId != 0
    ensures HandleSubmit(Init(Some(s))).1 == Some(s)
  {
  }

  /** After a refused submit, fixing the name clears the name error and leaves the others standing. */
  lemma FixingNameKeepsOtherErrors(st: State, name: string)
    requires HandleSubmit(st).1.None?
    ensures var shown := HandleSubmit(st).0;
            var fixed := HandleChange(shown, NameField, name);
            && fixed.errors.name == ""
            && fixed.errors.address == Validate(st.data).address
            && fixed.errors.insuranceGroupId == Validate(st.data).insuranceGroupId
  {
  }
}
