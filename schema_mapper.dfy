/**
  The schema mapper (`structure_form_data`): a pure function from the raw
  field map to the fixed record written as `data.json`. Every lookup falls
  back to "" when the field is absent; three entries are composites.
  The record is the dict itself, as (key, value) pairs in insertion order;
  `Key` names its 19 entries, `KeyName` spells them as the dict does, and
  `Value` says how each value is computed from the raw fields.
*/
module SchemaMapper {
  import opened Wrappers
  import opened Strings

  // Raw field names of the ADT-1 form, exactly as the form defines them.
  const CinField := "data[0].FormADT1_Dtls[0].Page1[0].Subform1[0].CIN_C[0]"
  const GlnField := "data[0].FormADT1_Dtls[0].Page1[0].Subform1[0].GLN_C[0]"
  const CompanyNameField := "data[0].FormADT1_Dtls[0].Page1[0].Subform1[0].CompanyName_C[0]"
  const CompanyAddressField := "data[0].FormADT1_Dtls[0].Page1[0].Subform1[0].CompanyAdd_C[0]"
  const CompanyMailField := "data[0].FormADT1_Dtls[0].Page1[0].Subform1[0].EmailId_C[0]"
  const AppointmentTypeField := "data[0].FormADT1_Dtls[0].Page1[0].Subform2[0].DropDownList1[0]"
  const AppointmentDateField := "data[0].FormADT1_Dtls[0].Page1[0].Subform6[0].DateReceipt_D[0]"
  const PeriodFromField := "data[0].FormADT1_Dtls[0].Page1[0].Subform3[0].Subform_4aTo4h[0].DateOfAccAuditedFrom_D[0]"
  const PeriodToField := "data[0].FormADT1_Dtls[0].Page1[0].Subform3[0].Subform_4aTo4h[0].DateOfAccAuditedTo_D[0]"
  const AuditorCategoryField := "data[0].FormADT1_Dtls[0].Page1[0].Subform3[0].Subform_4aTo4h[0].CategoryOfAuditor[0]"
  const AuditorPanField := "data[0].FormADT1_Dtls[0].Page1[0].Subform3[0].Subform_4aTo4h[0].PAN_C[0]"
  const AuditorNameField := "data[0].FormADT1_Dtls[0].Page1[0].Subform3[0].Subform_4aTo4h[0].NameAuditorFirm_C[0]"
  const AuditorMembershipField := "data[0].FormADT1_Dtls[0].Page1[0].Subform3[0].Subform_4aTo4h[0].MemberShNum[0]"
  const AddressLine2aField := "data[0].FormADT1_Dtls[0].Page1[0].Subform3[0].Subform_4aTo4h[0].permaddress2a_C[0]"
  const AddressLine2bField := "data[0].FormADT1_Dtls[0].Page1[0].Subform3[0].Subform_4aTo4h[0].permaddress2b_C[0]"
  const CityField := "data[0].FormADT1_Dtls[0].Page1[0].Subform3[0].Subform_4aTo4h[0].City_C[0]"
  const StateField := "data[0].FormADT1_Dtls[0].Page1[0].Subform3[0].Subform_4aTo4h[0].State_P[0]"
  const CountryField := "data[0].FormADT1_Dtls[0].Page1[0].Subform3[0].Subform_4aTo4h[0].Country_C[0]"
  const PinField := "data[0].FormADT1_Dtls[0].Page1[0].Subform3[0].Subform_4aTo4h[0].Pin_C[0]"
  const AuditorMailField := "data[0].FormADT1_Dtls[0].Page1[0].Subform3[0].Subform_4aTo4h[0].email[0]"
  const FinancialYearField := "data[0].FormADT1_Dtls[0].Page1[0].Subform3[0].Subform_4aTo4h[0].NumOfFinanYear[0]"
  const ResolutionNumberField := "data[0].FormADT1_Dtls[0].Page1[0].Subform6[0].ResoNum[0]"
  const DeclarationDateField := "data[0].FormADT1_Dtls[0].Page1[0].Subform6[0].DateOfAppSect_D[0]"
  const DesignationField := "data[0].FormADT1_Dtls[0].Page1[0].Subform6[0].DesigD_C[0]"
  const DinField := "data[0].FormADT1_Dtls[0].Page1[0].Subform6[0].DINOfDir_C[0]"

  /** The entries of the record. */
  datatype Key =
    | Cin | Gln | CompanyName | RegisteredOffice | CompanyMail | AppointmentType
    | AppointmentDate | AppointedPeriod | AuditorCategory | AuditorPan | AuditorName
    | AuditorMembershipNumber | AuditorAddress | AuditorMail | FinancialYear
    | ResolutionNumber | DeclarationDate | SignedByDesignation | Din

  /** The entries in the order the dict literal lists them. */
  const Keys: seq<Key> := [
    Cin, Gln, CompanyName, RegisteredOffice, CompanyMail, AppointmentType,
    AppointmentDate, AppointedPeriod, AuditorCategory, AuditorPan, AuditorName,
    AuditorMembershipNumber, AuditorAddress, AuditorMail, FinancialYear,
    ResolutionNumber, DeclarationDate, SignedByDesignation, Din]

  /** The output keys in the order the record lists them (the order of `data.json`). */
  const OutputKeys: seq<string> := [
    "cin", "gln", "company_name", "registered_office", "company_mail",
    "appointment_type", "appoitment_date", "appointed_period", "auditor_category",
    "auditor_income_tax_account_number", "auditor_name", "auditor_membership_number",
    "auditor_address", "auditor_mail", "financial_year", "resolution_number",
    "declaration_date", "signed_by_designation", "DIN"]

  /** The key under which an entry is written, spelled as the program spells it. */
  function KeyName(k: Key): string
  {
    match k
    case Cin => "cin"
    case Gln => "gln"
    case CompanyName => "company_name"
    case RegisteredOffice => "registered_office"
    case CompanyMail => "company_mail"
    case AppointmentType => "appointment_type"
    case AppointmentDate => "appoitment_date"
    case AppointedPeriod => "appointed_period"
    case AuditorCategory => "auditor_category"
    case AuditorPan => "auditor_income_tax_account_number"
    case AuditorName => "auditor_name"
    case AuditorMembershipNumber => "auditor_membership_number"
    case AuditorAddress => "auditor_address"
    case AuditorMail => "auditor_mail"
    case FinancialYear => "financial_year"
    case ResolutionNumber => "resolution_number"
    case DeclarationDate => "declaration_date"
    case SignedByDesignation => "signed_by_designation"
    case Din => "DIN"
  }

  /** The position of an entry in the dict literal. */
  function KeyIndex(k: Key): (i: nat)
    ensures i < |Keys| && Keys[i] == k
  {
    match k
    case Cin => 0
    case Gln => 1
    case CompanyName => 2
    case RegisteredOffice => 3
    case CompanyMail => 4
    case AppointmentType => 5
    case AppointmentDate => 6
    case AppointedPeriod => 7
    case AuditorCategory => 8
    case AuditorPan => 9
    case AuditorName => 10
    case AuditorMembershipNumber => 11
    case AuditorAddress => 12
    case AuditorMail => 13
    case FinancialYear => 14
    case ResolutionNumber => 15
    case DeclarationDate => 16
    case SignedByDesignation => 17
    case Din => 18
  }

  /** The listing of the entries spells the output keys in order. */
  lemma KeysSpelled()
    ensures |Keys| == |OutputKeys|
    ensures forall i :: 0 <= i < |Keys| ==> KeyName(Keys[i]) == OutputKeys[i]
  {
  }

  /** `form_data.get(field, '')`. */
  function Get(raw: map<string, string>, field: string): (v: string)
    ensures field in raw ==> v == raw[field]
    ensures field !in raw ==> v == ""
  {
    if field in raw then raw[field] else ""
  }

  /** The six address parts with their separators and labels. */
  function AddressText(a: string, b: string, city: string, state: string, country: string, pin: string): string
  {
    a + ", " + b + ", City: " + city + ", State: " + state + ", Country: " + country + ", PIN: " + pin
  }

  /** The value of one entry, computed from the raw fields as the dict literal computes it. */
  function Value(raw: map<string, string>, k: Key): string
  {
    match k
    case Cin => Get(raw, CinField)
    case Gln => Get(raw, GlnField)
    case CompanyName => Get(raw, CompanyNameField)
    case RegisteredOffice => ReplaceChar(Get(raw, CompanyAddressField), '\r', ' ')
    case CompanyMail => Get(raw, CompanyMailField)
    case AppointmentType => Get(raw, AppointmentTypeField)
    case AppointmentDate => Get(raw, AppointmentDateField)
    case AppointedPeriod => Get(raw, PeriodFromField) + " - " + Get(raw, PeriodToField)
    case AuditorCategory => Get(raw, AuditorCategoryField)
    case AuditorPan => Get(raw, AuditorPanField)
    case AuditorName => Get(raw, AuditorNameField)
    case AuditorMembershipNumber => Get(raw, AuditorMembershipField)
    case AuditorAddress =>
      AddressText(Get(raw, AddressLine2aField), Get(raw, AddressLine2bField), Get(raw, CityField),
                  Get(raw, StateField), Get(raw, CountryField), Get(raw, PinField))
    case AuditorMail => Get(raw, AuditorMailField)
    case FinancialYear => Get(raw, FinancialYearField)
    case ResolutionNumber => Get(raw, ResolutionNumberField)
    case DeclarationDate => Get(raw, DeclarationDateField)
    case SignedByDesignation => Get(raw, DesignationField)
    case Din => Get(raw, DinField)
  }

  /**
    `structure_form_data`: the dict, as (key, value) pairs in insertion
    order; its keys are the 19 output keys in order.
  */
  function StructureFormData(raw: map<string, string>): (data: seq<(string, string)>)
    ensures |data| == |OutputKeys|
    ensures forall i :: 0 <= i < |data| ==> data[i].0 == OutputKeys[i]
  {
    KeysSpelled();
    seq(|Keys|, i requires 0 <= i < |Keys| => (KeyName(Keys[i]), Value(raw, Keys[i])))
  }

  /**
    The output keys are 19 distinct names; with `StructureFormData`'s
    contract this says every record has exactly these 19 keys, each once.
  */
  lemma OutputKeysDistinct()
    ensures |OutputKeys| == 19
    ensures forall i, j :: 0 <= i < j < |OutputKeys| ==> OutputKeys[i] != OutputKeys[j]
    ensures |set k | k in OutputKeys| == 19
  {
    var keys := OutputKeys;
    assert forall i, j :: 0 <= i < j < |keys| ==> keys[i] != keys[j];
    DistinctCard(keys);
  }

  /** `d[key]` on a dict given as its (key, value) pairs: the value paired with the first occurrence of `key`. */
  function Lookup(entries: seq<(string, string)>, key: string): Option<string>
  {
    if entries == [] then None
    else if entries[0].0 == key then Some(entries[0].1)
    else Lookup(entries[1..], key)
  }

  /** A key whose earlier entries carry other keys gives the value at its position. */
  lemma {:induction false} LookupAt(entries: seq<(string, string)>, i: nat)
    requires i < |entries|
    requires forall j :: 0 <= j < i ==> entries[j].0 != entries[i].0
    ensures Lookup(entries, entries[i].0) == Some(entries[i].1)
  {
    if i > 0 {
      LookupAt(entries[1..], i - 1);
    }
  }

  /** A key that no entry carries has no value. */
  lemma {:induction false} LookupMissing(entries: seq<(string, string)>, key: string)
    requires forall j :: 0 <= j < |entries| ==> entries[j].0 != key
    ensures Lookup(entries, key) == None
  {
    if entries != [] {
      LookupMissing(entries[1..], key);
    }
  }

  /** The value `data.json` holds under `key` for the form fields `raw`. */
  function ValueOf(raw: map<string, string>, key: string): Option<string>
  {
    Lookup(StructureFormData(raw), key)
  }

  /** Under each entry's spelled key, `data.json` holds that entry's value. */
  lemma ValueOfKey(raw: map<string, string>, k: Key)
    ensures ValueOf(raw, KeyName(k)) == Some(Value(raw, k))
  {
    KeysSpelled();
    OutputKeysDistinct();
    var i := KeyIndex(k);
    var data := StructureFormData(raw);
    assert data[i] == (KeyName(k), Value(raw, k));
    LookupAt(data, i);
  }

  /** `data.json` holds a value under each of the 19 output keys and under no other key. */
  lemma ValueOfKeys(raw: map<string, string>, key: string)
    ensures ValueOf(raw, key).Some? <==> key in OutputKeys
  {
    var data := StructureFormData(raw);
    if key in OutputKeys {
      var i :| 0 <= i < |OutputKeys| && OutputKeys[i] == key;
      OutputKeysDistinct();
      LookupAt(data, i);
    } else {
      LookupMissing(data, key);
    }
  }

  /** `value` is the raw field's value when the field is present and "" when it is absent. */
  predicate Defaulted(value: string, raw: map<string, string>, field: string)
  {
    && (field in raw ==> value == raw[field])
    && (field !in raw ==> value == "")
  }

  /** `data.json` holds, under `key`, the raw field `field` under the default-empty rule. */
  predicate KeyCopies(raw: map<string, string>, key: string, field: string)
  {
    ValueOf(raw, key).Some? && Defaulted(ValueOf(raw, key).value, raw, field)
  }

  /** The raw field a copying entry takes its value from; none for the three composite entries. */
  function SourceField(k: Key): Option<string>
  {
    match k
    case Cin => Some(CinField)
    case Gln => Some(GlnField)
    case CompanyName => Some(CompanyNameField)
    case CompanyMail => Some(CompanyMailField)
    case AppointmentType => Some(AppointmentTypeField)
    case AppointmentDate => Some(AppointmentDateField)
    case AuditorCategory => Some(AuditorCategoryField)
    case AuditorPan => Some(AuditorPanField)
    case AuditorName => Some(AuditorNameField)
    case AuditorMembershipNumber => Some(AuditorMembershipField)
    case AuditorMail => Some(AuditorMailField)
    case FinancialYear => Some(FinancialYearField)
    case ResolutionNumber => Some(ResolutionNumberField)
    case DeclarationDate => Some(DeclarationDateField)
    case SignedByDesignation => Some(DesignationField)
    case Din => Some(DinField)
    case RegisteredOffice => None
    case AppointedPeriod => None
    case AuditorAddress => None
  }

  /**
    Each of the 16 copying keys holds its raw field under the default-empty
    rule: under `KeyName(k)`, `data.json` holds the field `SourceField(k)`'s
    value when the form has it and "" when it does not.
  */
  lemma CopiedFieldsDefaulted(raw: map<string, string>)
    ensures forall k: Key :: SourceField(k).Some? ==> KeyCopies(raw, KeyName(k), SourceField(k).value)
  {
    forall k: Key | SourceField(k).Some? ensures KeyCopies(raw, KeyName(k), SourceField(k).value) {
      ValueOfKey(raw, k);
    }
  }

  /**
    `appointed_period` is the from-date, " - ", then the to-date, each side
    defaulted independently.
  */
  lemma AppointedPeriodLayout(raw: map<string, string>)
    ensures var period := ValueOf(raw, "appointed_period");
      && (PeriodFromField in raw && PeriodToField in raw ==> period == Some(raw[PeriodFromField] + " - " + raw[PeriodToField]))
      && (PeriodFromField in raw && PeriodToField !in raw ==> period == Some(raw[PeriodFromField] + " - "))
      && (PeriodFromField !in raw && PeriodToField in raw ==> period == Some(" - " + raw[PeriodToField]))
      && (PeriodFromField !in raw && PeriodToField !in raw ==> period == Some(" - "))
  {
    ValueOfKey(raw, AppointedPeriod);
    var from, to := Get(raw, PeriodFromField), Get(raw, PeriodToField);
    assert ValueOf(raw, "appointed_period") == Some(from + " - " + to);
    assert from == "" ==> from + " - " == " - ";
    assert to == "" ==> (from + " - ") + to == from + " - ";
  }

  /**
    `registered_office` is the raw address with every carriage return turned
    into a space: no carriage return is left, the length is kept, and only
    the positions that held one differ.
  */
  lemma RegisteredOfficeCleaned(raw: map<string, string>)
    ensures ValueOf(raw, "registered_office").Some?
    ensures var office, source := ValueOf(raw, "registered_office").value, Get(raw, CompanyAddressField);
      && '\r' !in office
      && |office| == |source|
      && forall i :: 0 <= i < |source| ==>
           (source[i] == '\r' ==> office[i] == ' ') && (source[i] != '\r' ==> office[i] == source[i])
  {
    ValueOfKey(raw, RegisteredOffice);
  }

  /** `auditor_address` joins the six parts with the fixed labels, 37 characters of them. */
  lemma AuditorAddressLayout(raw: map<string, string>)
    ensures ValueOf(raw, "auditor_address").Some?
    ensures var address := ValueOf(raw, "auditor_address").value;
      var a, b, city, state := Get(raw, AddressLine2aField), Get(raw, AddressLine2bField), Get(raw, CityField), Get(raw, StateField);
      var country, pin := Get(raw, CountryField), Get(raw, PinField);
      && address == a + ", " + b + ", City: " + city + ", State: " + state + ", Country: " + country + ", PIN: " + pin
      && |address| == |a| + |b| + |city| + |state| + |country| + |pin| + 37
  {
    ValueOfKey(raw, AuditorAddress);
  }

  /** The value of `auditor_address` when none of its six parts is filled in. */
  const BareAuditorAddress := ", , City: , State: , Country: , PIN: "

  /** With every part empty only the separators and labels are left. */
  lemma EmptyAddressParts()
    ensures AddressText("", "", "", "", "", "") == BareAuditorAddress
  {
    var labels := ", " + ", City: " + ", State: " + ", Country: " + ", PIN: ";
    assert AddressText("", "", "", "", "", "") == labels;
    assert ", " + ", City: " == ", , City: ";
    assert ", , City: " + ", State: " == ", , City: , State: ";
    assert ", , City: , State: " + ", Country: " == ", , City: , State: , Country: ";
    assert ", , City: , State: , Country: " + ", PIN: " == BareAuditorAddress;
  }

  /** The value an entry takes for a form with no fields. */
  function EmptyFormValue(k: Key): string
  {
    match k
    case AppointedPeriod => " - "
    case AuditorAddress => BareAuditorAddress
    case _ => ""
  }

  /**
    A form with no fields maps every copying key and `registered_office` to
    "", `appointed_period` to " - " and `auditor_address` to the bare labels.
  */
  lemma EmptyFormRecord()
    ensures forall k: Key :: ValueOf(map[], KeyName(k)) == Some(EmptyFormValue(k))
  {
    var empty: map<string, string> := map[];
    EmptyAddressParts();
    forall k: Key ensures ValueOf(empty, KeyName(k)) == Some(EmptyFormValue(k)) {
      ValueOfKey(empty, k);
      assert "" + " - " + "" == " - ";
    }
  }

  /** The raw fields the mapper reads. */
  const KnownFields: set<string> := {
    CinField, GlnField, CompanyNameField, CompanyAddressField, CompanyMailField,
    AppointmentTypeField, AppointmentDateField, PeriodFromField, PeriodToField,
    AuditorCategoryField, AuditorPanField, AuditorNameField, AuditorMembershipField,
    AddressLine2aField, AddressLine2bField, CityField, StateField, CountryField, PinField,
    AuditorMailField, FinancialYearField, ResolutionNumberField, DeclarationDateField,
    DesignationField, DinField}

  /** Fields outside the table have no influence on the record. */
  lemma OnlyKnownFieldsMatter(raw: map<string, string>, raw': map<string, string>)
    requires forall f :: f in KnownFields ==> (f in raw <==> f in raw') && (f in raw ==> raw[f] == raw'[f])
    ensures StructureFormData(raw) == StructureFormData(raw')
  {
    forall k: Key ensures Value(raw, k) == Value(raw', k) {
      SameValue(raw, raw', k);
    }
    assert forall i :: 0 <= i < |Keys| ==> StructureFormData(raw)[i] == StructureFormData(raw')[i];
  }

  /** An entry's value depends only on the known fields. */
  lemma SameValue(raw: map<string, string>, raw': map<string, string>, k: Key)
    requires forall f :: f in KnownFields ==> (f in raw <==> f in raw') && (f in raw ==> raw[f] == raw'[f])
    ensures Value(raw, k) == Value(raw', k)
  {
    assert forall f :: f in KnownFields ==> Get(raw, f) == Get(raw', f);
  }

  /** A sequence without repeats has as many distinct elements as positions. */
  lemma {:induction false} DistinctCard<T>(s: seq<T>)
    requires forall i, j :: 0 <= i < j < |s| ==> s[i] != s[j]
    ensures |set x | x in s| == |s|
  {
    if s != [] {
      var init := s[..|s| - 1];
      DistinctCard(init);
      assert (set x | x in s) == (set x | x in init) + {s[|s| - 1]};
      assert s[|s| - 1] !in (set x | x in init);
    }
  }
}
