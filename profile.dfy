/** The profile form of client/src/Components/profile.tsx. `new Date(...)` enters as
    `parse` (None for an invalid date, otherwise its time) and the clock as `now`. */
module ProfileForm {
  import opened Common
  import opened Forms

  datatype ProfileFields = ProfileFields(firstName: string, lastName: string, dateOfBirth: string, preference: seq<string>)

  datatype ProfileField = FirstName | LastName | DateOfBirth | Preference

  predicate NameOk(name: string) {
    1 <= |name| <= 50
  }

  /** The date rule (profile.tsx:13-19): a valid date strictly before now. */
  predicate BirthDateOk(dateOfBirth: string, parse: string -> Option<int>, now: int) {
    parse(dateOfBirth).Some? && parse(dateOfBirth).value < now
  }

  /** The two length rules of a name field, minimum first. */
  function NameIssues(field: ProfileField, name: string, requiredMessage: string, tooLongMessage: string): (r: seq<Issue<ProfileField>>)
    ensures r == [] <==> NameOk(name)
    ensures Fields(r) == if NameOk(name) then {} else {field}
  {
    var min := Check(|name| >= 1, field, requiredMessage);
    var max := Check(|name| <= 50, field, tooLongMessage);
    FieldsConcat(min, max);
    min + max
  }

  /** `profileSchema` (profile.tsx:10-21). */
  function ProfileIssues(f: ProfileFields, parse: string -> Option<int>, now: int): (r: seq<Issue<ProfileField>>)
    ensures r == [] <==>
              && NameOk(f.firstName) && NameOk(f.lastName)
              && BirthDateOk(f.dateOfBirth, parse, now)
              && |f.preference| >= 1
    ensures FirstName in Fields(r) <==> !NameOk(f.firstName)
    ensures LastName in Fields(r) <==> !NameOk(f.lastName)
    ensures DateOfBirth in Fields(r) <==> !BirthDateOk(f.dateOfBirth, parse, now)
    ensures Preference in Fields(r) <==> f.preference == []
  {
    var first := NameIssues(FirstName, f.firstName, "First name is required", "First name is too long");
    var last := NameIssues(LastName, f.lastName, "Last name is required", "Last name is too long");
    var birth := Check(BirthDateOk(f.dateOfBirth, parse, now), DateOfBirth, "Invalid date of birth");
    var preference := Check(|f.preference| >= 1, Preference, "Select at least one preference");
    FieldsConcat(first, last);
    FieldsConcat(first + last, birth);
    FieldsConcat(first + last + birth, preference);
    first + last + birth + preference
  }
}
