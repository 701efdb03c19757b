/**
 * The new-request form (src/components/requests/RequestForm.tsx): site name
 * and address are required, the special-details box appears only for
 * Special insurance and is never validated, and a valid submission builds
 * a Pending request record for the backend.
 */
module RequestForm {
  import opened Wrappers
  import opened Domain

  datatype Data = Data(siteName: string, address: string, insuranceType: InsuranceType,
                       specialDetails: Option<string>)

  datatype Errors = Errors(siteName: string, address: string, insuranceType: string)

  datatype State = State(data: Data, errors: Errors)

  const NoErrors: Errors := Errors("", "", "")

  const SiteNameRequired: string := "Site name is required"
  const AddressRequired: string := "Address is required"

  const Initial: State := State(Data("", "", Normal, None), NoErrors)

  /** The inputs that report through `handleChange`, by their `name` attribute. */
  datatype TextField = SiteNameField | AddressField | SpecialDetailsField

  /**
   * `handleChange`: stores the text and clears that field's error alone;
   * special details have no error entry, so every error stays.
   */
  function HandleChange(st: State, field: TextField, value: string): (r: State)
    ensures r.data.insuranceType == st.data.insuranceType
    ensures field == SiteNameField ==>
              r.data == st.data.(siteName := value) && r.errors == st.errors.(siteName := "")
    ensures field == AddressField ==>
              r.data == st.data.(address := value) && r.errors == st.errors.(address := "")
    ensures field == SpecialDetailsField ==>
              r.data == st.data.(specialDetails := Some(value)) && r.errors == st.errors
  {
    match field
    case SiteNameField =>
      var errors := if st.errors.siteName != "" then st.errors.(siteName := "") else st.errors;
      State(st.data.(siteName := value), errors)
    case AddressField =>
      var errors := if st.errors.address != "" then st.errors.(address := "") else st.errors;
      State(st.data.(address := value), errors)
    case SpecialDetailsField =>
      State(st.data.(specialDetails := Some(value)), st.errors)
  }

  /** `handleRadioChange`: switches the type and clears the type error alone. */
  function HandleRadioChange(st: State, t: InsuranceType): (r: State)
    ensures r.data == st.data.(insuranceType := t)
    ensures r.errors == st.errors.(insuranceType := "")
  {
    var errors := if st.errors.insuranceType != "" then st.errors.(insuranceType := "") else st.errors;
    State(st.data.(insuranceType := t), errors)
  }

  /** The special-details box is shown only for Special insurance. */
  predicate SpecialDetailsVisible(data: Data) {
    data.insuranceType == Special
  }

  /**
   * The Special Details field follows the radio buttons: hidden on the
   * initial form, shown exactly after choosing Special, and untouched by typing.
   */
  lemma SpecialDetailsFollowRadio(st: State, t: InsuranceType, field: TextField, value: string)
    ensures !SpecialDetailsVisible(Initial.data)
    ensures SpecialDetailsVisible(HandleRadioChange(st, t).data) <==> t == Special
    ensures SpecialDetailsVisible(HandleChange(st, field, value).data) == SpecialDetailsVisible(st.data)
  {
  }

  /** `validate`: the type always holds one of its two values, so only name and address can fail. */
  function Validate(data: Data): (e: Errors)
    ensures e.siteName != "" <==> data.siteName == ""
    ensures e.address != "" <==> data.address == ""
    ensures e.insuranceType == ""
  {
    Errors(if data.siteName != "" then "" else SiteNameRequired,
           if data.address != "" then "" else AddressRequired,
           "")
  }

  predicate IsValid(e: Errors) {
    e.siteName == "" && e.address == "" && e.insuranceType == ""
  }

  /** The special details never decide validity, whatever the type. */
  lemma DetailsNeverValidated(data: Data, details: Option<string>)
    ensures IsValid(Validate(data)) == IsValid(Validate(data.(specialDetails := details)))
  {
  }

  /** The row inserted into the `insurance_requests` table, under its column names. */
  datatype NewRequest = NewRequest(
    site_name: string,
    address: string,
    insurance_type: InsuranceType,
    special_details: Option<string>,
    request_date: Instant,
    status: Status,
    user_id: Option<string>)

  /** `formData.specialDetails || null`, and likewise `user?.id || null`: empty text counts as none. */
  function NonEmpty(s: Option<string>): (r: Option<string>)
    ensures r.None? <==> s.None? || s.value == ""
    ensures r.Some? ==> r == s
  {
    match s
    case Some(v) => if v == "" then None else s
    case None => None
  }

  /**
   * `newRequest`: the form's fields under the table's column names, stamped
   * with `now` and the signed-in user's id, always Pending.
   */
  function BuildRequest(data: Data, now: Instant, userId: Option<string>): (r: NewRequest)
    ensures r.status == Pending && r.request_date == now
    ensures r.site_name == data.siteName && r.address == data.address
    ensures r.insurance_type == data.insuranceType
    ensures r.special_details.None? <==> data.specialDetails.None? || data.specialDetails.value == ""
    ensures r.special_details.Some? ==> data.specialDetails == r.special_details
    ensures r.user_id.None? <==> userId.None? || userId.value == ""
    ensures r.user_id.Some? ==> r.user_id == userId
  {
    NewRequest(data.siteName, data.address, data.insuranceType, NonEmpty(data.specialDetails),
               now, Pending, NonEmpty(userId))
  }

  /**
   * `handleSubmit` up to the insert: an invalid form only shows its errors;
   * a valid one produces the record to insert.
   */
  function HandleSubmit(st: State, now: Instant, userId: Option<string>): (r: (State, Option<NewRequest>))
    ensures r.0 == st.(errors := Validate(st.data))
    ensures r.1.Some? <==> st.data.siteName != "" && st.data.address != ""
    ensures r.1.Some? ==> r.1.value == BuildRequest(st.data, now, userId)
  {
    var errors := Validate(st.data);
    if IsValid(errors) then (st.(errors := errors), Some(BuildRequest(st.data, now, userId)))
    else (st.(errors := errors), None)
  }

  /** A Normal request with no details at all is submittable once name and address are filled in. */
  lemma NormalWithoutDetailsSubmits(name: string, address: string, now: Instant)
    requires name != "" && address != ""
    ensures var st := HandleChange(HandleChange(Initial, SiteNameField, name), AddressField, address);
            && st.data.insuranceType == Normal
            && HandleSubmit(st, now, None).1 == Some(NewRequest(name, address, Normal, None, now, Pending, None))
  {
  }
}
