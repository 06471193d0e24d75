/** The route table: one request constructor per route of app/api.py, the
    dispatcher, and facts that hold of every request. */
module Routes {
  import opened Records
  import opened Payload
  import opened Responses
  import H = Handlers
  import V = Views
  import ViewFacts

  datatype Request =
    | GetStudents
    | GetStudent(id: Id)
    | CreateStudent(body: StudentBody, newId: Id)
    | UpdateStudent(id: Id, body: StudentBody)
    | DeleteStudent(id: Id)
    | GetSubjects
    | GetSubject(id: Id)
    | CreateSubject(subjectBody: SubjectBody, newId: Id)
    | UpdateSubject(id: Id, subjectBody: SubjectBody)
    | DeleteSubject(id: Id)
    | GetStudentSubjects(id: Id)
    | GetSubjectStudents(id: Id)
    | AddStudentSubject(id: Id, pk: Id)
    | DeleteStudentSubject(id: Id, pk: Id)
  {
    /** The GET routes. */
    predicate IsRead() {
      GetStudents? || GetStudent? || GetSubjects? || GetSubject? || GetStudentSubjects? || GetSubjectStudents?
    }
  }

  /** The key a create request is given is not yet taken in its table. */
  predicate Admissible(s: Store, req: Request) {
    match req
    case CreateStudent(_, newId) => newId !in s.students
    case CreateSubject(_, newId) => newId !in s.subjects
    case _ => true
  }

  /** Handles one request against the store; `now` is the clock reading. */
  function Handle(s: Store, req: Request, now: Timestamp): H.Outcome
    requires Admissible(s, req)
  {
    match req
    case GetStudents => H.Outcome(V.GetStudents(s), s)
    case GetStudent(id) => H.Outcome(V.GetStudent(s, id), s)
    case CreateStudent(body, newId) => H.CreateStudent(s, body, newId, now)
    case UpdateStudent(id, body) => H.UpdateStudent(s, id, body)
    case DeleteStudent(id) => H.DeleteStudent(s, id)
    case GetSubjects => H.Outcome(V.GetSubjects(s), s)
    case GetSubject(id) => H.Outcome(V.GetSubject(s, id), s)
    case CreateSubject(body, newId) => H.CreateSubject(s, body, newId, now)
    case UpdateSubject(id, body) => H.UpdateSubject(s, id, body, now)
    case DeleteSubject(id) => H.DeleteSubject(s, id)
    case GetStudentSubjects(id) => H.Outcome(V.GetStudentSubjects(s, id), s)
    case GetSubjectStudents(id) => H.Outcome(V.GetSubjectStudents(s, id), s)
    case AddStudentSubject(id, pk) => H.AddStudentSubject(s, id, pk)
    case DeleteStudentSubject(id, pk) => H.DeleteStudentSubject(s, id, pk)
  }

  /** Every handler keeps the join rows pointing at existing records. */
  lemma HandlePreservesValid(s: Store, req: Request, now: Timestamp)
    requires Valid(s) && Admissible(s, req)
    ensures Valid(Handle(s, req, now).store)
  {
  }

  /** A request either succeeds or changes nothing: a handler that answers
      with an error, or whose exception reaches the 500 handler, leaves the
      store as it found it; and no GET route writes. */
  lemma FailureChangesNothing(s: Store, req: Request, now: Timestamp)
    requires Admissible(s, req)
    ensures var r := Handle(s, req, now);
      (r.reply.Error? || r.reply.Uncaught? || req.IsRead()) ==> r.store == s
  {
  }

  /** Which routes can end in the 500 handler: the student update whose
      `lastname` step reads a missing or null `firstname`, the subject
      creation with a body that does not load, and the subject list over a
      non-empty table. */
  lemma UncaughtExactly(s: Store, req: Request, now: Timestamp)
    requires Admissible(s, req)
    ensures Handle(s, req, now).reply.Uncaught? <==>
      match req
      case UpdateStudent(id, body) =>
        && id in s.students
        && ((TextTruthy(body.lastname) && !body.firstname.Given?)
            || (NumberTruthy(body.level) && !FitsInteger(body.level.value)))
      case CreateSubject(body, _) => !SubjectLoads(body)
      case GetSubjects => |s.subjects| > 0
      case _ => false
  {
    match req {
      case GetSubjects => ViewFacts.GetSubjectsFailsUnlessEmpty(s);
      case GetStudents => ViewFacts.GetStudentsListsSummaries(s);
      case GetStudent(id) => ViewFacts.GetStudentShowsSummary(s, id);
      case _ =>
    }
  }

  /** Through the 500 handler a client never receives a bare exception, and
      receives its error body exactly when the handler raised. */
  lemma ClientSeesRenderedReply(s: Store, req: Request, now: Timestamp)
    requires Admissible(s, req)
    ensures !Rendered(Handle(s, req, now).reply).Uncaught?
    ensures Handle(s, req, now).reply.Uncaught? <==> Rendered(Handle(s, req, now).reply) == Error(UncaughtMessage)
  {
  }
}
