/** The persistent state behind the API: the `student` and `subject` tables
    and the `mycourse` join table (app/api.py lines 18-57), abstracted from
    the relational store into two maps keyed by primary key and a set of
    (student id, subject id) pairs. */
module Records {

  /** A primary key; route converters `<int:id>` only ever produce naturals. */
  type Id = nat

  /** The text `isoformat()` writes for a date-time: it always starts with
      the ten characters `YYYY-MM-DD`. */
  type IsoText = t: string | |t| >= 10 witness "1970-01-01T00:00:00"

  /** A clock reading. The model never inspects it except through `iso`,
      the text the serializer writes for it. */
  datatype Timestamp = Timestamp(iso: IsoText)

  /** The range of SQLite's INTEGER storage class: a Python int outside it
      cannot be written, and the commit raises. */
  const IntegerMin: int := -0x8000_0000_0000_0000
  const IntegerMax: int := 0x7FFF_FFFF_FFFF_FFFF

  predicate FitsInteger(n: int) {
    IntegerMin <= n <= IntegerMax
  }

  datatype Student = Student(
    firstname: string,
    lastname: string,
    department: string,
    level: int,
    studId: string,
    dateJoined: Timestamp)

  datatype Subject = Subject(subName: string, createdOn: Timestamp, updatedOn: Timestamp)

  datatype Store = Store(
    students: map<Id, Student>,
    subjects: map<Id, Subject>,
    enrolled: set<(Id, Id)>)

  /** Referential integrity: every join row names an existing student and an existing subject. */
  predicate Valid(s: Store) {
    forall e :: e in s.enrolled ==> e.0 in s.students && e.1 in s.subjects
  }

  /** The subjects a student is enrolled in (`stud.subjects`). */
  function SubjectsOf(s: Store, sid: Id): (r: set<Id>)
    ensures forall j :: j in r <==> (sid, j) in s.enrolled && j in s.subjects
  {
    set e | e in s.enrolled && e.0 == sid && e.1 in s.subjects :: e.1
  }

  /** The students enrolled in a subject (`subj.students`). */
  function StudentsOf(s: Store, jid: Id): (r: set<Id>)
    ensures forall k :: k in r <==> (k, jid) in s.enrolled && k in s.students
  {
    set e | e in s.enrolled && e.1 == jid && e.0 in s.students :: e.0
  }
}
