/** Properties that relate several requests: round trips through the store,
    the enrolment guard, idempotence of the partial update. */
module Properties {
  import opened Records
  import opened Payload
  import opened Responses
  import opened Handlers
  import Views
  import ViewFacts
  import Decimal
  import Ordering

  /** A created student reads back with exactly the submitted fields and the
      creation date cut to its ten-character `YYYY-MM-DD` part; a `level` too
      wide for the column creates nothing, so the key stays unknown. */
  lemma CreateThenGetStudent(s: Store, b: StudentBody, newId: Id, now: Timestamp)
    requires newId !in s.students
    requires StudentLoads(b)
    ensures var r := CreateStudent(s, b, newId, now);
      FitsInteger(b.level.value) ==>
        Views.GetStudent(r.store, newId) == Record("student",
          map[PrimaryKey := Int(newId), FirstName := Text(b.firstname.value), LastName := Text(b.lastname.value),
              Department := Text(b.department.value), Level := Int(b.level.value),
              StudId := Text(b.studId.value), DateJoined := Text(now.iso[..10])])
    ensures var r := CreateStudent(s, b, newId, now);
      !FitsInteger(b.level.value) ==> Views.GetStudent(r.store, newId) == Error(NotFound)
  {
    var r := CreateStudent(s, b, newId, now);
    ViewFacts.GetStudentShowsSummary(r.store, newId);
  }

  /** A created subject reads back with its id and the submitted name. */
  lemma CreateThenGetSubject(s: Store, b: SubjectBody, newId: Id, now: Timestamp)
    requires newId !in s.subjects
    requires SubjectLoads(b)
    ensures var r := CreateSubject(s, b, newId, now);
      Views.GetSubject(r.store, newId) == Record("subject", map[PrimaryKey := Int(newId), SubName := Text(b.subName.value)])
  {
  }

  /** A deleted student is no longer found, by the detail route or a repeated delete. */
  lemma DeleteThenGetStudent(s: Store, id: Id)
    requires id in s.students
    ensures Views.GetStudent(DeleteStudent(s, id).store, id) == Error(NotFound)
    ensures DeleteStudent(DeleteStudent(s, id).store, id).reply == Error(DeleteNotFound)
  {
  }

  /** Adding the same enrolment twice succeeds once, then reports that the
      pair already exists without touching the store. */
  lemma AddTwice(s: Store, id: Id, pk: Id)
    requires id in s.students && pk in s.subjects && (id, pk) !in s.enrolled
    ensures var first := AddStudentSubject(s, id, pk);
      var second := AddStudentSubject(first.store, id, pk);
      && first.reply == Success(AddedMessage(id))
      && second == Outcome(Error(AlreadyExists), first.store)
  {
  }

  /** Enrolling then unenrolling a pair restores the store. */
  lemma AddThenDelete(s: Store, id: Id, pk: Id)
    requires id in s.students && pk in s.subjects && (id, pk) !in s.enrolled
    ensures var added := AddStudentSubject(s, id, pk);
      var removed := DeleteStudentSubject(added.store, id, pk);
      removed == Outcome(Success(Unenrolled), s)
  {
    var added := AddStudentSubject(s, id, pk);
    assert added.store.enrolled - {(id, pk)} == s.enrolled;
  }

  /** Unenrolling then enrolling a pair restores the store; a second
      unenrolment is refused. */
  lemma DeleteThenAdd(s: Store, id: Id, pk: Id)
    requires id in s.students && pk in s.subjects && (id, pk) in s.enrolled
    ensures var removed := DeleteStudentSubject(s, id, pk);
      && DeleteStudentSubject(removed.store, id, pk) == Outcome(Error(NotEnrolled), removed.store)
      && AddStudentSubject(removed.store, id, pk) == Outcome(Success(AddedMessage(id)), s)
  {
    var removed := DeleteStudentSubject(s, id, pk);
    assert removed.store.enrolled + {(id, pk)} == s.enrolled;
  }

  /** After a successful enrolment the student's subject view lists the subject's name. */
  lemma AddThenListed(s: Store, id: Id, pk: Id)
    requires id in s.students && pk in s.subjects && (id, pk) !in s.enrolled
    ensures var t := AddStudentSubject(s, id, pk).store;
      var v := Views.GetStudentSubjects(t, id);
      && v.Record?
      && Subjects in v.row && v.row[Subjects].Rows?
      && map[SubName := s.subjects[pk].subName] in v.row[Subjects].rows
  {
    var t := AddStudentSubject(s, id, pk).store;
    var ids := Ordering.Ascending(SubjectsOf(t, id));
    assert pk in SubjectsOf(t, id);
    var i :| 0 <= i < |ids| && ids[i] == pk;
    assert Views.SubjectNameRows(t, id)[i] == map[SubName := s.subjects[pk].subName];
  }

  /** After a successful enrolment the subject's student view lists the
      student's first and last name. */
  lemma AddThenListedOnSubject(s: Store, id: Id, pk: Id)
    requires id in s.students && pk in s.subjects && (id, pk) !in s.enrolled
    ensures var t := AddStudentSubject(s, id, pk).store;
      var v := Views.GetSubjectStudents(t, pk);
      && v.Record?
      && Students in v.row && v.row[Students].Rows?
      && map[FirstName := s.students[id].firstname, LastName := s.students[id].lastname] in v.row[Students].rows
  {
    var t := AddStudentSubject(s, id, pk).store;
    var ids := Ordering.Ascending(StudentsOf(t, pk));
    assert id in StudentsOf(t, pk);
    var i :| 0 <= i < |ids| && ids[i] == id;
    assert Views.StudentNameRows(t, pk)[i]
      == map[FirstName := s.students[id].firstname, LastName := s.students[id].lastname];
  }

  /** Applying the same update body twice has the effect of applying it once. */
  lemma UpdateStudentIdempotent(s: Store, id: Id, b: StudentBody)
    requires UpdateStudent(s, id, b).reply.Success?
    ensures UpdateStudent(UpdateStudent(s, id, b).store, id, b) == UpdateStudent(s, id, b)
  {
  }

  /** The `lastname` step stores the body's `firstname`: a body naming a new
      last name only, with an empty first name, blanks the last name and keeps
      the first name. */
  lemma LastNameTakesFirstName(s: Store, id: Id, last: string)
    requires id in s.students && last != ""
    ensures var b := StudentBody(Given(""), Given(last), Absent, Absent, Absent);
      var r := UpdateStudent(s, id, b);
      && r.reply == Success(Updated)
      && r.store.students[id].lastname == ""
      && r.store.students[id].firstname == s.students[id].firstname
  {
  }

  /** The enrolment success message names the student: its tail after the
      fixed prefix reads back as the id, so distinct students get distinct messages. */
  lemma AddedMessageNamesStudent(id: Id)
    ensures |AddedMessage(id)| > |AddedPrefix|
    ensures AddedMessage(id)[..|AddedPrefix|] == AddedPrefix
    ensures var digits := AddedMessage(id)[|AddedPrefix|..];
      Decimal.AllDigits(digits) && Decimal.Parse(digits) == id
  {
    var digits := AddedMessage(id)[|AddedPrefix|..];
    assert digits == Decimal.Show(id);
    Decimal.ParseShow(id);
  }

  lemma AddedMessageInjective(a: Id, b: Id)
    ensures AddedMessage(a) == AddedMessage(b) ==> a == b
  {
    if AddedMessage(a) == AddedMessage(b) {
      AddedMessageNamesStudent(a);
      AddedMessageNamesStudent(b);
    }
  }
}
