/** The read-only route handlers: dump a stored record to a dict, select
    fields by an include or exclude list, and cut date texts to their first
    ten characters (the `YYYY-MM-DD` part of an ISO date-time). */
module Views {
  import opened Optional
  import opened Records
  import opened Responses
  import Ordering

  datatype Selector = Exclude(names: set<Column>) | Only(names: set<Column>)

  /** Field selection as the schema's `exclude=` / `only=` arguments perform it. */
  function Select(d: Dict, sel: Selector): (r: Dict)
    ensures forall k :: k in r <==> k in d && (if sel.Exclude? then k !in sel.names else k in sel.names)
    ensures forall k :: k in r ==> r[k] == d[k]
  {
    match sel
    case Exclude(names) => d - names
    case Only(names) => map k | k in d && k in names :: d[k]
  }

  /** Python's `text[:10]`. */
  function Prefix10(text: string): (r: string)
    ensures |r| == if |text| < 10 then |text| else 10
    ensures r == text[..|r|]
  {
    if |text| <= 10 then text else text[..10]
  }

  /** `value[:10]` on a dumped value: texts and lists slice, numbers raise TypeError. */
  function Slice10(v: Value): Option<Value> {
    match v
    case Text(t) => Some(Text(Prefix10(t)))
    case Rows(rows) => Some(Rows(if |rows| <= 10 then rows else rows[..10]))
    case Int(_) => None
  }

  /** `d[key] = d[key][:10]` for each key in turn; None when a key is missing (KeyError). */
  function TruncateKeys(d: Dict, keys: seq<Column>): (r: Option<Dict>)
    ensures (exists i :: 0 <= i < |keys| && keys[i] !in d) ==> r.None?
    ensures (forall i :: 0 <= i < |keys| ==> keys[i] in d && d[keys[i]].Text?) ==>
      && r.Some?
      && r.value.Keys == d.Keys
      && (forall k :: k in d && k !in keys ==> r.value[k] == d[k])
      && (forall k :: k in d && k in keys ==> r.value[k] == Text(Prefix10(d[k].text)))
  {
    if keys == [] then Some(d)
    else if keys[0] !in d then None
    else
      match Slice10(d[keys[0]])
      case None => None
      case Some(v) => TruncateKeys(d[keys[0] := v], keys[1..])
  }

  /** The loop `for row in rows: <truncate keys>`; it stops at the first failure. */
  function TruncateRows(rows: seq<Dict>, keys: seq<Column>): (r: Option<seq<Dict>>)
    ensures r.Some? <==> forall i :: 0 <= i < |rows| ==> TruncateKeys(rows[i], keys).Some?
    ensures r.Some? ==>
      |r.value| == |rows| && forall i :: 0 <= i < |rows| ==> r.value[i] == TruncateKeys(rows[i], keys).value
  {
    if rows == [] then Some([])
    else
      match TruncateKeys(rows[0], keys)
      case None => None
      case Some(first) =>
        match TruncateRows(rows[1..], keys)
        case None => None
        case Some(rest) => Some([first] + rest)
  }

  /** The nested `{sub_name}` rows of a student's subjects, in ascending subject id. */
  function SubjectNameRows(s: Store, sid: Id): seq<map<Column, string>> {
    var ids := Ordering.Ascending(SubjectsOf(s, sid));
    seq(|ids|, i requires 0 <= i < |ids| => map[SubName := s.subjects[ids[i]].subName])
  }

  /** The nested `{firstname, lastname}` rows of a subject's students, in ascending student id. */
  function StudentNameRows(s: Store, jid: Id): seq<map<Column, string>> {
    var ids := Ordering.Ascending(StudentsOf(s, jid));
    seq(|ids|, i requires 0 <= i < |ids| =>
      map[FirstName := s.students[ids[i]].firstname, LastName := s.students[ids[i]].lastname])
  }

  /** Every field of `StudentSchema`, before selection. */
  function StudentDump(s: Store, id: Id): Dict
    requires id in s.students
  {
    var st := s.students[id];
    map[PrimaryKey := Int(id), FirstName := Text(st.firstname), LastName := Text(st.lastname),
        Department := Text(st.department), Level := Int(st.level), StudId := Text(st.studId),
        DateJoined := Text(st.dateJoined.iso), Subjects := Rows(SubjectNameRows(s, id))]
  }

  /** Every field of `SubjectSchema`, before selection. */
  function SubjectDump(s: Store, id: Id): Dict
    requires id in s.subjects
  {
    var sub := s.subjects[id];
    map[PrimaryKey := Int(id), SubName := Text(sub.subName), CreatedOn := Text(sub.createdOn.iso),
        UpdatedOn := Text(sub.updatedOn.iso), Students := Rows(StudentNameRows(s, id))]
  }

  /** The student record a list or detail view is meant to show: the stored
      fields without `subjects`, the join date cut to ten characters. */
  function StudentSummary(id: Id, st: Student): Dict {
    map[PrimaryKey := Int(id), FirstName := Text(st.firstname), LastName := Text(st.lastname),
        Department := Text(st.department), Level := Int(st.level), StudId := Text(st.studId),
        DateJoined := Text(Prefix10(st.dateJoined.iso))]
  }

  const StudentListSelector := Exclude({Subjects})
  const SubjectListSelector := Exclude({Students, UpdatedOn})

  /** The dumps of the listed students, `subjects` excluded. */
  function StudentListDumps(s: Store, ids: seq<Id>): (r: seq<Dict>)
    requires forall i :: 0 <= i < |ids| ==> ids[i] in s.students
    ensures |r| == |ids|
  {
    seq(|ids|, i requires 0 <= i < |ids| => Select(StudentDump(s, ids[i]), StudentListSelector))
  }

  /** GET /api/v1/students. */
  function GetStudents(s: Store): Reply {
    var ids := Ordering.Ascending(s.students.Keys);
    match TruncateRows(StudentListDumps(s, ids), [DateJoined])
    case None => Uncaught
    case Some(rows) => Listing("students", rows)
  }

  /** GET /api/v1/student/<id>. */
  function GetStudent(s: Store, id: Id): Reply {
    if id !in s.students then Error(NotFound)
    else
      match TruncateKeys(Select(StudentDump(s, id), StudentListSelector), [DateJoined])
      case None => Uncaught
      case Some(row) => Record("student", row)
  }

  /** GET /api/v1/subjects: `updated_on` is excluded from the dump and then
      read back for truncation. */
  function GetSubjects(s: Store): Reply {
    var ids := Ordering.Ascending(s.subjects.Keys);
    var dumps := seq(|ids|, i requires 0 <= i < |ids| => Select(SubjectDump(s, ids[i]), SubjectListSelector));
    match TruncateRows(dumps, [CreatedOn, UpdatedOn])
    case None => Uncaught
    case Some(rows) => Listing("subjects", rows)
  }

  /** GET /api/v1/subject/<id>: only the id and the name. */
  function GetSubject(s: Store, id: Id): (r: Reply)
    ensures id !in s.subjects <==> r == Error(NotFound)
    ensures id in s.subjects ==>
      r == Record("subject", map[PrimaryKey := Int(id), SubName := Text(s.subjects[id].subName)])
  {
    if id !in s.subjects then Error(NotFound)
    else
      var row := Select(SubjectDump(s, id), Only({PrimaryKey, SubName}));
      var expected := map[PrimaryKey := Int(id), SubName := Text(s.subjects[id].subName)];
      assert row.Keys == expected.Keys;
      assert row == expected;
      Record("subject", row)
  }

  /** GET /api/v1/student/<id>/subjects: name fields and the nested subject names. */
  function GetStudentSubjects(s: Store, id: Id): (r: Reply)
    ensures id !in s.students <==> r == Error(NotFound)
    ensures id in s.students ==>
      r == Record("student", map[PrimaryKey := Int(id), FirstName := Text(s.students[id].firstname),
                                 LastName := Text(s.students[id].lastname),
                                 Subjects := Rows(SubjectNameRows(s, id))])
  {
    if id !in s.students then Error(NotFound)
    else
      var row := Select(StudentDump(s, id), Exclude({DateJoined, Department, Level, StudId}));
      var expected := map[PrimaryKey := Int(id), FirstName := Text(s.students[id].firstname),
                          LastName := Text(s.students[id].lastname),
                          Subjects := Rows(SubjectNameRows(s, id))];
      assert row.Keys == expected.Keys;
      assert row == expected;
      Record("student", row)
  }

  /** GET /api/v1/subject/<id>/students: id, name and the nested student names. */
  function GetSubjectStudents(s: Store, id: Id): (r: Reply)
    ensures id !in s.subjects <==> r == Error(NotFound)
    ensures id in s.subjects ==>
      r == Record("subject", map[PrimaryKey := Int(id), SubName := Text(s.subjects[id].subName),
                                 Students := Rows(StudentNameRows(s, id))])
  {
    if id !in s.subjects then Error(NotFound)
    else
      var row := Select(SubjectDump(s, id), Only({PrimaryKey, SubName, Students}));
      var expected := map[PrimaryKey := Int(id), SubName := Text(s.subjects[id].subName),
                          Students := Rows(StudentNameRows(s, id))];
      assert row.Keys == expected.Keys;
      assert row == expected;
      Record("subject", row)
  }
}

/** What the read handlers are meant to show, proved of the mechanism above. */
module ViewFacts {
  import opened Optional
  import opened Records
  import opened Responses
  import opened Views
  import Ordering

  /** Excluding `subjects` from a student's dump leaves its seven stored fields. */
  lemma StudentListDump(s: Store, id: Id)
    requires id in s.students
    ensures var st := s.students[id];
      Select(StudentDump(s, id), StudentListSelector)
      == map[PrimaryKey := Int(id), FirstName := Text(st.firstname), LastName := Text(st.lastname),
             Department := Text(st.department), Level := Int(st.level), StudId := Text(st.studId),
             DateJoined := Text(st.dateJoined.iso)]
  {
    var st := s.students[id];
    var d := Select(StudentDump(s, id), StudentListSelector);
    var expected := map[PrimaryKey := Int(id), FirstName := Text(st.firstname), LastName := Text(st.lastname),
                        Department := Text(st.department), Level := Int(st.level), StudId := Text(st.studId),
                        DateJoined := Text(st.dateJoined.iso)];
    assert d.Keys == expected.Keys;
  }

  /** One student's row in the list and detail views is its summary. */
  lemma StudentRowIsSummary(s: Store, id: Id)
    requires id in s.students
    ensures TruncateKeys(Select(StudentDump(s, id), StudentListSelector), [DateJoined])
            == Some(StudentSummary(id, s.students[id]))
  {
    StudentListDump(s, id);
    var d := Select(StudentDump(s, id), StudentListSelector);
    var cut := Text(Prefix10(s.students[id].dateJoined.iso));
    assert TruncateKeys(d, [DateJoined]) == Some(d[DateJoined := cut]);
    assert d[DateJoined := cut] == StudentSummary(id, s.students[id]);
  }

  /** Truncating the dumps of listed students yields their summaries. */
  lemma StudentListRows(s: Store, ids: seq<Id>)
    requires forall i :: 0 <= i < |ids| ==> ids[i] in s.students
    ensures TruncateRows(StudentListDumps(s, ids), [DateJoined]).Some?
    ensures forall i :: 0 <= i < |ids| ==>
      TruncateRows(StudentListDumps(s, ids), [DateJoined]).value[i] == StudentSummary(ids[i], s.students[ids[i]])
  {
    var dumps := StudentListDumps(s, ids);
    forall i | 0 <= i < |dumps|
      ensures TruncateKeys(dumps[i], [DateJoined]) == Some(StudentSummary(ids[i], s.students[ids[i]]))
    {
      StudentRowIsSummary(s, ids[i]);
    }
  }

  /** GET /api/v1/students lists every student once, in ascending id order,
      each as its summary. */
  lemma GetStudentsListsSummaries(s: Store)
    ensures GetStudents(s).Listing?
    ensures GetStudents(s).noun == "students"
    ensures |GetStudents(s).rows| == |s.students|
    ensures forall i :: 0 <= i < |GetStudents(s).rows| ==>
      var id := Ordering.Ascending(s.students.Keys)[i];
      id in s.students && GetStudents(s).rows[i] == StudentSummary(id, s.students[id])
    ensures forall i :: 0 <= i < |GetStudents(s).rows| ==>
      var row := GetStudents(s).rows[i];
      DateJoined in row && row[DateJoined].Text? && |row[DateJoined].text| == 10
  {
    var ids := Ordering.Ascending(s.students.Keys);
    StudentListRows(s, ids);
    assert GetStudents(s) == Listing("students", TruncateRows(StudentListDumps(s, ids), [DateJoined]).value);
  }

  /** GET /api/v1/student/<id> shows the summary of an existing student and
      reports a missing one. */
  lemma GetStudentShowsSummary(s: Store, id: Id)
    ensures id in s.students ==> GetStudent(s, id) == Record("student", StudentSummary(id, s.students[id]))
    ensures id in s.students ==> |GetStudent(s, id).row[DateJoined].text| == 10
    ensures id !in s.students ==> GetStudent(s, id) == Error(NotFound)
  {
    if id in s.students {
      StudentRowIsSummary(s, id);
    }
  }

  /** The subject list dump excludes `updated_on` and the handler then reads
      it: the handler fails on any non-empty table and only an empty table
      is listed. */
  lemma GetSubjectsFailsUnlessEmpty(s: Store)
    ensures GetSubjects(s) == Uncaught <==> |s.subjects| > 0
    ensures |s.subjects| == 0 ==> GetSubjects(s) == Listing("subjects", [])
  {
    var ids := Ordering.Ascending(s.subjects.Keys);
    var dumps := seq(|ids|, i requires 0 <= i < |ids| => Select(SubjectDump(s, ids[i]), SubjectListSelector));
    if |s.subjects| > 0 {
      assert |s.subjects.Keys| > 0;
      assert |dumps| > 0;
      var keys := [CreatedOn, UpdatedOn];
      assert keys[1] !in dumps[0];
      assert TruncateKeys(dumps[0], keys).None?;
    } else {
      assert |s.subjects.Keys| == 0;
      assert dumps == [];
    }
  }
}
