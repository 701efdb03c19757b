/**
 * The insurance-group form (src/components/insurance/InsuranceGroupForm.tsx):
 * provider and end date are required; the date picker ignores an empty pick.
 */
module GroupForm {
  import opened Wrappers
  import opened Domain

  /** `endDate` is absent only if the date was cleared; the form never does so. */
  datatype Data = Data(id: Option<int>, provider: string, endDate: Option<Instant>)

  datatype Errors = Errors(provider: string, endDate: string)

  datatype State = State(group: Option<InsuranceGroup>, data: Data, errors: Errors)

  const NoErrors: Errors := Errors("", "")

  const ProviderRequired: string := "Provider name is required"
  const EndDateRequired: string := "End date is required"

  /**
   * The mounted form: an empty provider and `now` (the clock reading
   * `new Date()` takes) as end date, or the edited group's fields.
   */
  function Init(group: Option<InsuranceGroup>, now: Instant): (st: State)
    ensures st.errors == NoErrors && st.group == group && st.data.endDate.Some?
    ensures group.None? ==> st.data == Data(None, "", Some(now))
    ensures group.Some? ==> st.data == Data(Some(group.value.id), group.value.provider, Some(group.value.endDate))
  {
    match group
    case None => State(None, Data(None, "", Some(now)), NoErrors)
    case Some(g) => State(group, Data(Some(g.id), g.provider, Some(g.endDate)), NoErrors)
  }

  /** `handleChange` on the provider input: stores the text and clears the provider error alone. */
  function HandleProviderChange(st: State, value: string): (r: State)
    ensures r.data == st.data.(provider := value)
    ensures r.errors == st.errors.(provider := "") && r.group == st.group
  {
    var errors := if st.errors.provider != "" then st.errors.(provider := "") else st.errors;
    st.(data := st.data.(provider := value), errors := errors)
  }

  /** `handleDateChange`: a picked date is stored and clears the date error; no date changes nothing. */
  function HandleDateChange(st: State, date: Option<Instant>): (r: State)
    ensures date.None? ==> r == st
    ensures date.Some? ==> r.data == st.data.(endDate := date) && r.errors == st.errors.(endDate := "")
    ensures r.group == st.group
  {
    match date
    case None => st
    case Some(d) =>
      var errors := if st.errors.endDate != "" then st.errors.(endDate := "") else st.errors;
      st.(data := st.data.(endDate := Some(d)), errors := errors)
  }

  function Validate(data: Data): (e: Errors)
    ensures e.provider != "" <==> data.provider == ""
    ensures e.endDate != "" <==> data.endDate.None?
  {
    Errors(if data.provider != "" then "" else ProviderRequired,
           if data.endDate.Some? then "" else EndDateRequired)
  }

  predicate IsValid(e: Errors) {
    e.provider == "" && e.endDate == ""
  }

  /**
   * `handleSubmit`: a valid form hands the group to `onSave` with the edited
   * group's id, or 0 when creating; the form keeps its data. An invalid one
   * only shows its errors.
   */
  function HandleSubmit(st: State): (r: (State, Option<InsuranceGroup>))
    ensures r.1.Some? <==> st.data.provider != "" && st.data.endDate.Some?
    ensures r.1.Some? ==>
              && r.1.value.id == (if st.group.Some? then st.group.value.id else 0)
              && r.1.value.provider == st.data.provider
              && Some(r.1.value.endDate) == st.data.endDate
    ensures r.0 == st.(errors := Validate(st.data))
  {
    var errors := Validate(st.data);
    if !IsValid(errors) then (st.(errors := errors), None)
    else
      var id := if st.group.Some? then st.group.value.id else 0;
      (st.(errors := errors), Some(InsuranceGroup(id, st.data.provider, st.data.endDate.value)))
  }

  /** Every operation keeps an end date in the form, so the end-date error never appears. */
  lemma EndDateAlwaysPresent(st: State, value: string, date: Option<Instant>)
    requires st.data.endDate.Some?
    ensures HandleProviderChange(st, value).data.endDate.Some?
    ensures HandleDateChange(st, date).data.endDate.Some?
    ensures HandleSubmit(st).0.data.endDate.Some? && HandleSubmit(st).0.errors.endDate == ""
  {
  }

  /** Submitting an edit form untouched saves the edited group back unchanged. */
  lemma EditRoundTrip(g: InsuranceGroup, now: Instant)
    requires g.provider != ""
    ensures HandleSubmit(Init(Some(g), now)).1 == Some(g)
  {
  }
}
