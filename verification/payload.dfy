/** Request bodies as the handlers see them after JSON parsing. Each field is
    three-valued, because the handlers treat a key that is missing, a key
    whose value is JSON null, and a key with a value differently. */
module Payload {

  datatype Field<+T> = Absent | Null | Given(value: T)

  /** Python truthiness of `data.get(key)` for a text field: present, not null, not "". */
  predicate TextTruthy(f: Field<string>) {
    f.Given? && f.value != ""
  }

  /** Python truthiness of `data.get(key)` for a number field: present, not null, not 0. */
  predicate NumberTruthy(f: Field<int>) {
    f.Given? && f.value != 0
  }

  datatype StudentBody = StudentBody(
    firstname: Field<string>,
    lastname: Field<string>,
    department: Field<string>,
    level: Field<int>,
    studId: Field<string>)

  datatype SubjectBody = SubjectBody(subName: Field<string>)

  /** `StudentSchema().load` succeeds: each of the five required fields is present and not null. */
  predicate StudentLoads(b: StudentBody) {
    && b.firstname.Given?
    && b.lastname.Given?
    && b.department.Given?
    && b.level.Given?
    && b.studId.Given?
  }

  /** `SubjectSchema().load` succeeds: `sub_name` is present and not null. */
  predicate SubjectLoads(b: SubjectBody) {
    b.subName.Given?
  }
}
