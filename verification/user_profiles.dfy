/** The pure rules of `UserProfileController`: resolving "Others" on update,
    activating a status, and the checks made when a profile is created. The
    profile table is a map keyed by the generated serial row number (srNo). */
module UserProfiles {
  import opened Common

  /** The columns an update copies from the request body unchanged. */
  datatype Details = Details(
    employeeName: Option<string>,
    emergencyContactNumber: Option<string>,
    address: Option<string>,
    emailAddress: Option<string>,
    qualification: Option<string>,
    dateOfJoining: Option<int>,
    reportingOfficer: Option<string>,
    grossSalary: Option<int>,
    bankAccountNumber: Option<string>,
    ifscCode: Option<string>,
    medicalBackground: Option<string>,
    legalBackground: Option<string>,
    pan: Option<string>,
    adhaar: Option<string>,
    personalFileNumber: Option<string>)

  /** A profile row. The three `other*` fields are transient: they travel in
      a request body but are not columns, so a saved row has them unset. `status` is a single character,
      'N' by default, and '\0' when nothing set it. */
  datatype UserProfile = UserProfile(
    srNo: Option<int>,
    employeeSerialNumber: Option<string>,
    details: Details,
    bankName: Option<string>,
    department: Option<string>,
    designation: Option<string>,
    otherBankName: Option<string>,
    otherDepartment: Option<string>,
    otherDesignation: Option<string>,
    status: char)

  type Profiles = map<int, UserProfile>

  datatype ProfileError = ProfileNotFound | DuplicateSerialNumber

  /** ASCII case folding of one character. */
  function LowerChar(c: char): char
  {
    if 'A' <= c <= 'Z' then (c as int + 32) as char else c
  }

  /** ASCII case folding of a string, character by character. */
  function Lower(s: string): (r: string)
    ensures |r| == |s|
    ensures forall i :: 0 <= i < |s| ==> r[i] == LowerChar(s[i])
  {
    if |s| == 0 then [] else [LowerChar(s[0])] + Lower(s[1..])
  }

  /** `String.equalsIgnoreCase` on ASCII text: same length, and each pair of
      characters is equal after folding. */
  predicate EqualsIgnoreCase(a: string, b: string)
  {
    |a| == |b| && forall i :: 0 <= i < |a| ==> LowerChar(a[i]) == LowerChar(b[i])
  }

  /** `"Others".equalsIgnoreCase(value)`; a null value never matches. */
  predicate IsOthers(value: Option<string>)
  {
    value.Some? && EqualsIgnoreCase("Others", value.value)
  }

  /** The stored value of a field with an "Others" choice: the companion
      free-text field when "Others" was picked, else the value as sent. */
  function ResolveOthers(value: Option<string>, other: Option<string>): Option<string>
  {
    if IsOthers(value) then other else value
  }

  /** Case-insensitive comparison is equality of the folded strings. */
  lemma EqualsIgnoreCaseIffSameLower(a: string, b: string)
    ensures EqualsIgnoreCase(a, b) <==> Lower(a) == Lower(b)
  {
    if Lower(a) == Lower(b) {
      assert |a| == |b|;
      forall i | 0 <= i < |a|
        ensures LowerChar(a[i]) == LowerChar(b[i])
      {
        assert Lower(a)[i] == Lower(b)[i];
      }
    }
  }

  /** "Others" resolution against an independent definition: a value whose
      folding is "others" is replaced by the companion field; any other value,
      or null, is kept as sent. */
  lemma ResolveOthersByFolding(value: Option<string>, other: Option<string>)
    ensures value.Some? && Lower(value.value) == "others" ==> ResolveOthers(value, other) == other
    ensures (value.None? || Lower(value.value) != "others") ==> ResolveOthers(value, other) == value
  {
    if value.Some? {
      EqualsIgnoreCaseIffSameLower("Others", value.value);
      assert Lower("Others") == "others";
    }
  }

  /** A profile as the table stores it: the transient fields are dropped. */
  function WithoutTransients(p: UserProfile): UserProfile
  {
    p.(otherBankName := None, otherDepartment := None, otherDesignation := None)
  }

  /** `updateUserProfile`: overwrites the copied columns, the status and the
      three "Others"-resolved fields of an existing profile; the serial
      number and the row number stay, and the transient `other*` fields are
      not saved. */
  function UpdateUserProfile(profiles: Profiles, id: int, incoming: UserProfile): (r: Result<Profiles, ProfileError>)
    ensures r.Err? <==> id !in profiles
    ensures r.Err? ==> r.error == ProfileNotFound
    ensures r.Ok? ==> id in profiles && r.value.Keys == profiles.Keys
    ensures r.Ok? ==>
      var before := profiles[id];
      var after := r.value[id];
      && (forall k :: k in profiles && k != id ==> r.value[k] == profiles[k])
      && after.srNo == before.srNo
      && after.employeeSerialNumber == before.employeeSerialNumber
      && after.details == incoming.details
      && after.status == incoming.status
      && after.bankName == ResolveOthers(incoming.bankName, incoming.otherBankName)
      && after.department == ResolveOthers(incoming.department, incoming.otherDepartment)
      && after.designation == ResolveOthers(incoming.designation, incoming.otherDesignation)
      && after.otherBankName == None
      && after.otherDepartment == None
      && after.otherDesignation == None
  {
    if id !in profiles then Err(ProfileNotFound)
    else
      var updated := profiles[id].(
        details := incoming.details,
        bankName := ResolveOthers(incoming.bankName, incoming.otherBankName),
        department := ResolveOthers(incoming.department, incoming.otherDepartment),
        designation := ResolveOthers(incoming.designation, incoming.otherDesignation),
        status := incoming.status);
      Ok(profiles[id := WithoutTransients(updated)])
  }

  /** The status after activation. */
  function Activate(status: char): (r: char)
    ensures status == 'N' || status == 'n' ==> r == 'Y'
    ensures r != 'N' && r != 'n'
    ensures status != 'N' && status != 'n' ==> r == status
  {
    if status == 'N' || status == 'n' then 'Y' else status
  }

  predicate HasSerial(p: UserProfile, serial: string)
  {
    p.employeeSerialNumber == Some(serial)
  }

  /** `activateUserStatusByEmployeeSerialNumber`: not found when no profile
      has the serial number; otherwise that profile's 'N' or 'n' becomes 'Y'
      and any other status is left alone. */
  function ActivateUserStatus(profiles: Profiles, serial: string): (r: Result<Profiles, ProfileError>)
    ensures r.Err? <==> forall k :: k in profiles ==> !HasSerial(profiles[k], serial)
    ensures r.Err? ==> r.error == ProfileNotFound
    ensures r.Ok? ==>
      && r.value.Keys == profiles.Keys
      && (forall k :: k in profiles && !HasSerial(profiles[k], serial) ==> r.value[k] == profiles[k])
      && (forall k :: k in profiles && HasSerial(profiles[k], serial) ==>
            r.value[k] == profiles[k].(status := Activate(profiles[k].status)))
  {
    if forall k :: k in profiles ==> !HasSerial(profiles[k], serial) then Err(ProfileNotFound)
    else
      Ok(map k | k in profiles ::
           if HasSerial(profiles[k], serial) then profiles[k].(status := Activate(profiles[k].status))
           else profiles[k])
  }

  /** Activation is idempotent, on one status and on the whole table. */
  lemma ActivationIsIdempotent(profiles: Profiles, serial: string, c: char)
    requires ActivateUserStatus(profiles, serial).Ok?
    ensures Activate(Activate(c)) == Activate(c)
    ensures var once := ActivateUserStatus(profiles, serial).value;
      ActivateUserStatus(once, serial) == Ok(once)
  {
    var once := ActivateUserStatus(profiles, serial).value;
    var k :| k in profiles && HasSerial(profiles[k], serial);
    assert k in once && HasSerial(once[k], serial);
    var twice := ActivateUserStatus(once, serial).value;
    assert twice == once;
  }

  predicate SerialTaken(profiles: Profiles, serial: string)
  {
    exists k :: k in profiles && HasSerial(profiles[k], serial)
  }

  /** At most one profile per serial number (the column's unique constraint). */
  predicate UniqueSerials(profiles: Profiles)
  {
    forall i, j :: i in profiles && j in profiles && i != j && profiles[i].employeeSerialNumber.Some?
      ==> profiles[i].employeeSerialNumber != profiles[j].employeeSerialNumber
  }

  /** `createUserProfile` without the file uploads: a serial number already
      taken is refused; otherwise the profile is saved under the row number
      the table generates, with an unset status defaulted to 'N' and without
      the transient `other*` fields. */
  function CreateUserProfile(profiles: Profiles, incoming: UserProfile, srNo: int): (r: Result<Profiles, ProfileError>)
    requires srNo !in profiles
    ensures r.Err? <==> incoming.employeeSerialNumber.Some? && SerialTaken(profiles, incoming.employeeSerialNumber.value)
    ensures r.Err? ==> r.error == DuplicateSerialNumber
    ensures r.Ok? ==>
      && r.value.Keys == profiles.Keys + {srNo}
      && (forall k :: k in profiles ==> r.value[k] == profiles[k])
      && r.value[srNo] == incoming.(srNo := Some(srNo), status := r.value[srNo].status,
                                    otherBankName := None, otherDepartment := None, otherDesignation := None)
      && (incoming.status == '\0' ==> r.value[srNo].status == 'N')
      && (incoming.status != '\0' ==> r.value[srNo].status == incoming.status)
  {
    if incoming.employeeSerialNumber.Some? && SerialTaken(profiles, incoming.employeeSerialNumber.value) then
      Err(DuplicateSerialNumber)
    else
      var status := if incoming.status == '\0' then 'N' else incoming.status;
      Ok(profiles[srNo := WithoutTransients(incoming.(srNo := Some(srNo), status := status))])
  }

  /** Creation keeps serial numbers unique, and a second profile with the
      same serial number is refused. */
  lemma CreateKeepsSerialsUnique(profiles: Profiles, incoming: UserProfile, srNo: int, again: UserProfile, srNo2: int)
    requires UniqueSerials(profiles)
    requires srNo !in profiles
    requires CreateUserProfile(profiles, incoming, srNo).Ok?
    requires incoming.employeeSerialNumber.Some?
    requires again.employeeSerialNumber == incoming.employeeSerialNumber
    requires srNo2 !in CreateUserProfile(profiles, incoming, srNo).value
    ensures UniqueSerials(CreateUserProfile(profiles, incoming, srNo).value)
    ensures CreateUserProfile(CreateUserProfile(profiles, incoming, srNo).value, again, srNo2) == Err(DuplicateSerialNumber)
  {
    var after := CreateUserProfile(profiles, incoming, srNo).value;
    assert HasSerial(after[srNo], incoming.employeeSerialNumber.value);
  }

  /** Updates and activations never change serial numbers, so they keep them unique. */
  lemma UpdateAndActivateKeepSerialsUnique(profiles: Profiles, id: int, incoming: UserProfile, serial: string)
    requires UniqueSerials(profiles)
    ensures UpdateUserProfile(profiles, id, incoming).Ok? ==> UniqueSerials(UpdateUserProfile(profiles, id, incoming).value)
    ensures ActivateUserStatus(profiles, serial).Ok? ==> UniqueSerials(ActivateUserStatus(profiles, serial).value)
  {
  }
}
