/** What a handler hands back to the web framework, with HTTP status codes
    and JSON encoding abstracted away. */
module Responses {

  /** The fields the two schemas declare (`StudentSchema`, `SubjectSchema`). */
  datatype Column =
    | PrimaryKey | FirstName | LastName | Department | Level | StudId | DateJoined | Subjects
    | SubName | CreatedOn | UpdatedOn | Students
  {
    /** The JSON key the field is written under. */
    function Key(): string {
      match this
      case PrimaryKey => "id"
      case FirstName => "firstname"
      case LastName => "lastname"
      case Department => "department"
      case Level => "level"
      case StudId => "stud_id"
      case DateJoined => "date_joined"
      case Subjects => "subjects"
      case SubName => "sub_name"
      case CreatedOn => "created_on"
      case UpdatedOn => "updated_on"
      case Students => "students"
    }
  }

  /** Distinct fields are written under distinct JSON keys, so a dict keyed
      by `Column` stands for the JSON object the serializer emits. */
  lemma KeyInjective(a: Column, b: Column)
    ensures a.Key() == b.Key() ==> a == b
  {
    if a.Key() == b.Key() {
      assert |a.Key()| == |b.Key()| && a.Key()[0] == b.Key()[0];
    }
  }

  /** A value inside a dumped record: an integer, a text, or a list of nested
      records whose fields are all texts. */
  datatype Value = Int(i: int) | Text(text: string) | Rows(rows: seq<map<Column, string>>)

  /** A record as the serializer dumps it: field to value. */
  type Dict = map<Column, Value>

  datatype Reply =
    | Success(message: string)          // {"success": message}
    | Error(message: string)            // {"error": message}
    | Uncaught                          // an exception reaching the 500 handler
    | Listing(noun: string, rows: seq<Dict>)  // {noun: [row, ...]}
    | Record(noun: string, row: Dict)   // {noun: row}

  const Created := "resource created"
  const NotCreated := "resource was not created"
  const Updated := "resource updated"
  const Deleted := "resource deleted"
  const NotFound := "resource not found"
  /** The delete handlers' not-found message, misspelled as in the source. */
  const DeleteNotFound := "reosource not found"
  const AlreadyExists := "resource already exist"
  const NotEnrolled := "student cannot delete resource"
  const Unenrolled := "resource has been deleted"
  const AddedPrefix := "subject added to student id "
  /** The body the 500 handler renders for `Uncaught`. */
  const UncaughtMessage := "an uncaught exception occurred"

  /** The reply as the client sees it: an exception is turned into the 500
      handler's error body, every other reply is passed through. */
  function Rendered(r: Reply): (c: Reply)
    ensures !c.Uncaught?
    ensures r.Uncaught? ==> c.Error? && c.message == UncaughtMessage
    ensures !r.Uncaught? ==> c == r
  {
    if r.Uncaught? then Error(UncaughtMessage) else r
  }
}
