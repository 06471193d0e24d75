/** The mutating route handlers of app/api.py, each a pure function from the
    store and the request to the reply and the store after the request. A
    reply other than a success leaves the store as it was: either nothing
    was written, or the failed commit is rolled back. */
module Handlers {
  import opened Records
  import opened Payload
  import opened Responses
  import Decimal

  datatype Outcome = Outcome(reply: Reply, store: Store)

  /** POST /api/v1/students. `newId` is the key the database assigns. A
      `level` that loads but does not fit an SQLite INTEGER makes the commit
      raise inside the `try`, which turns it into the handler's error reply. */
  function CreateStudent(s: Store, b: StudentBody, newId: Id, now: Timestamp): (r: Outcome)
    requires newId !in s.students
    ensures r.reply.Success? <==> StudentLoads(b) && FitsInteger(b.level.value)
    ensures !r.reply.Success? ==> r.reply == Error(NotCreated) && r.store == s
    ensures r.reply.Success? ==>
      && r.reply.message == Created
      && r.store.subjects == s.subjects
      && r.store.enrolled == s.enrolled
      && r.store.students.Keys == s.students.Keys + {newId}
      && (forall k :: k in s.students ==> r.store.students[k] == s.students[k])
      && r.store.students[newId].firstname == b.firstname.value
      && r.store.students[newId].lastname == b.lastname.value
      && r.store.students[newId].department == b.department.value
      && r.store.students[newId].level == b.level.value
      && r.store.students[newId].studId == b.studId.value
      && r.store.students[newId].dateJoined == now
  {
    if StudentLoads(b) && FitsInteger(b.level.value) then
      var st := Student(b.firstname.value, b.lastname.value, b.department.value,
                        b.level.value, b.studId.value, now);
      Outcome(Success(Created), s.(students := s.students[newId := st]))
    else
      Outcome(Error(NotCreated), s)
  }

  /** PUT /api/v1/student/<id>: applies the truthy fields of the body, in the
      source's order. The `lastname` step copies the body's `firstname`:
      reading that key fails when it is missing, and storing a null breaks
      the NOT NULL column at commit. A truthy `level` that does not fit an
      SQLite INTEGER also makes the commit raise; no `try` catches either. */
  function UpdateStudent(s: Store, id: Id, b: StudentBody): (r: Outcome)
    ensures id !in s.students ==> r == Outcome(Error(NotFound), s)
    ensures r.reply.Success? <==>
      && id in s.students
      && (TextTruthy(b.lastname) ==> b.firstname.Given?)
      && (NumberTruthy(b.level) ==> FitsInteger(b.level.value))
    ensures !r.reply.Success? ==> r.store == s
    ensures id in s.students && !r.reply.Success? ==> r.reply == Uncaught
    ensures r.reply.Success? ==>
      && r.reply.message == Updated
      && r.store.subjects == s.subjects
      && r.store.enrolled == s.enrolled
      && r.store.students.Keys == s.students.Keys
      && (forall k :: k in s.students && k != id ==> r.store.students[k] == s.students[k])
      && r.store.students[id].studId == s.students[id].studId
      && r.store.students[id].dateJoined == s.students[id].dateJoined
      && r.store.students[id].firstname
         == (if TextTruthy(b.firstname) then b.firstname.value else s.students[id].firstname)
      && r.store.students[id].lastname
         == (if TextTruthy(b.lastname) then b.firstname.value else s.students[id].lastname)
      && r.store.students[id].department
         == (if TextTruthy(b.department) then b.department.value else s.students[id].department)
      && r.store.students[id].level
         == (if NumberTruthy(b.level) then b.level.value else s.students[id].level)
  {
    if id !in s.students then Outcome(Error(NotFound), s)
    else
      var st0 := s.students[id];
      var st1 := if TextTruthy(b.firstname) then st0.(firstname := b.firstname.value) else st0;
      if TextTruthy(b.lastname) && !b.firstname.Given? then
        // Absent: `data['firstname']` raises KeyError before the commit.
        // Null: the commit writes NULL into a NOT NULL column and fails.
        Outcome(Uncaught, s)
      else if NumberTruthy(b.level) && !FitsInteger(b.level.value) then
        // The commit cannot write the number into the INTEGER column.
        Outcome(Uncaught, s)
      else
        var st2 := if TextTruthy(b.lastname) then st1.(lastname := b.firstname.value) else st1;
        var st3 := if TextTruthy(b.department) then st2.(department := b.department.value) else st2;
        var st4 := if NumberTruthy(b.level) then st3.(level := b.level.value) else st3;
        Outcome(Success(Updated), s.(students := s.students[id := st4]))
  }

  /** DELETE /api/v1/student/<id>. The join rows naming the student go with
      it: that is the mapper's handling of a `secondary` relationship. */
  function DeleteStudent(s: Store, id: Id): (r: Outcome)
    ensures id !in s.students ==> r == Outcome(Error(DeleteNotFound), s)
    ensures id in s.students ==>
      && r.reply == Success(Deleted)
      && r.store.students.Keys == s.students.Keys - {id}
      && (forall k :: k in r.store.students ==> r.store.students[k] == s.students[k])
      && r.store.subjects == s.subjects
      && (forall e :: e in r.store.enrolled <==> e in s.enrolled && e.0 != id)
  {
    if id in s.students then
      Outcome(Success(Deleted),
              Store(s.students - {id}, s.subjects, set e | e in s.enrolled && e.0 != id))
    else
      Outcome(Error(DeleteNotFound), s)
  }

  /** POST /api/v1/subject. The body is loaded before the `try`, so a missing
      or null `sub_name` escapes to the 500 handler instead of producing the
      handler's own error reply. Both timestamps take the creation time. */
  function CreateSubject(s: Store, b: SubjectBody, newId: Id, now: Timestamp): (r: Outcome)
    requires newId !in s.subjects
    ensures r.reply.Uncaught? <==> !SubjectLoads(b)
    ensures r.reply.Uncaught? ==> r.store == s
    ensures !r.reply.Uncaught? ==>
      && r.reply == Success(Created)
      && r.store.students == s.students
      && r.store.enrolled == s.enrolled
      && r.store.subjects.Keys == s.subjects.Keys + {newId}
      && (forall k :: k in s.subjects ==> r.store.subjects[k] == s.subjects[k])
      && r.store.subjects[newId].subName == b.subName.value
      && r.store.subjects[newId].createdOn == now
      && r.store.subjects[newId].updatedOn == now
  {
    if !SubjectLoads(b) then Outcome(Uncaught, s)
    else
      Outcome(Success(Created), s.(subjects := s.subjects[newId := Subject(b.subName.value, now, now)]))
  }

  /** PUT /api/v1/subject/<id>: a truthy `sub_name` replaces the name and
      stamps `updated_on` with the current time. */
  function UpdateSubject(s: Store, id: Id, b: SubjectBody, now: Timestamp): (r: Outcome)
    ensures id !in s.subjects ==> r == Outcome(Error(NotFound), s)
    ensures id in s.subjects ==>
      && r.reply == Success(Updated)
      && r.store.students == s.students
      && r.store.enrolled == s.enrolled
      && r.store.subjects.Keys == s.subjects.Keys
      && (forall k :: k in s.subjects && k != id ==> r.store.subjects[k] == s.subjects[k])
      && r.store.subjects[id].createdOn == s.subjects[id].createdOn
      && (TextTruthy(b.subName) ==>
            r.store.subjects[id].subName == b.subName.value && r.store.subjects[id].updatedOn == now)
      && (!TextTruthy(b.subName) ==> r.store.subjects[id] == s.subjects[id])
  {
    if id !in s.subjects then Outcome(Error(NotFound), s)
    else
      var sub := s.subjects[id];
      var sub' := if TextTruthy(b.subName) then sub.(subName := b.subName.value, updatedOn := now) else sub;
      Outcome(Success(Updated), s.(subjects := s.subjects[id := sub']))
  }

  /** DELETE /api/v1/subject/<id>; its join rows go with it, as for students. */
  function DeleteSubject(s: Store, id: Id): (r: Outcome)
    ensures id !in s.subjects ==> r == Outcome(Error(DeleteNotFound), s)
    ensures id in s.subjects ==>
      && r.reply == Success(Deleted)
      && r.store.subjects.Keys == s.subjects.Keys - {id}
      && (forall k :: k in r.store.subjects ==> r.store.subjects[k] == s.subjects[k])
      && r.store.students == s.students
      && (forall e :: e in r.store.enrolled <==> e in s.enrolled && e.1 != id)
  {
    if id in s.subjects then
      Outcome(Success(Deleted),
              Store(s.students, s.subjects - {id}, set e | e in s.enrolled && e.1 != id))
    else
      Outcome(Error(DeleteNotFound), s)
  }

  /** The success message of the enrolment handler, naming the student id. */
  function AddedMessage(id: Id): string {
    AddedPrefix + Decimal.Show(id)
  }

  /** PUT /api/v1/student/<id>/subject/<pk>: membership check, then insert. */
  function AddStudentSubject(s: Store, id: Id, pk: Id): (r: Outcome)
    ensures !(id in s.students && pk in s.subjects) ==> r == Outcome(Error(NotFound), s)
    ensures id in s.students && pk in s.subjects && (id, pk) in s.enrolled ==>
      r == Outcome(Error(AlreadyExists), s)
    ensures r.reply.Success? <==> id in s.students && pk in s.subjects && (id, pk) !in s.enrolled
    ensures r.reply.Success? ==>
      && r.reply.message == AddedMessage(id)
      && r.store.students == s.students
      && r.store.subjects == s.subjects
      && (forall e :: e in r.store.enrolled <==> e in s.enrolled || e == (id, pk))
  {
    if id in s.students && pk in s.subjects then
      if pk in SubjectsOf(s, id) then Outcome(Error(AlreadyExists), s)
      else Outcome(Success(AddedMessage(id)), s.(enrolled := s.enrolled + {(id, pk)}))
    else
      Outcome(Error(NotFound), s)
  }

  /** DELETE /api/v1/student/<id>/subject/<pk>: membership check, then remove. */
  function DeleteStudentSubject(s: Store, id: Id, pk: Id): (r: Outcome)
    ensures !(id in s.students && pk in s.subjects) ==> r == Outcome(Error(NotFound), s)
    ensures id in s.students && pk in s.subjects && (id, pk) !in s.enrolled ==>
      r == Outcome(Error(NotEnrolled), s)
    ensures r.reply.Success? <==> id in s.students && pk in s.subjects && (id, pk) in s.enrolled
    ensures r.reply.Success? ==>
      && r.reply.message == Unenrolled
      && r.store.students == s.students
      && r.store.subjects == s.subjects
      && (forall e :: e in r.store.enrolled <==> e in s.enrolled && e != (id, pk))
  {
    if id in s.students && pk in s.subjects then
      if pk !in SubjectsOf(s, id) then Outcome(Error(NotEnrolled), s)
      else Outcome(Success(Unenrolled), s.(enrolled := s.enrolled - {(id, pk)}))
    else
      Outcome(Error(NotFound), s)
  }
}
