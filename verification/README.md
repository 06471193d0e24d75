# student-api handler model

A Dafny model of the request handlers of the student/subject record-keeping
REST API in `app/api.py`. The Flask routes and the SQLAlchemy session are
abstracted into a pure state machine over an in-memory store:

- `Records.Store`: a map from student id to `Student` (`firstname`,
  `lastname`, `department`, `level`, `stud_id`, `date_joined`), a map from
  subject id to `Subject` (`sub_name`, `created_on`, `updated_on`), and a set
  of (student id, subject id) pairs standing for the `mycourse` join table.
- `Payload`: request bodies. Every field is `Absent`, `Null` or
  `Given(value)`, so that `data.get(key)` truthiness, the `KeyError` of
  `data[key]`, and a JSON null written into a NOT NULL column are distinct.
- `Responses.Reply`: `Success(msg)`, `Error(msg)`, `Uncaught` (an exception
  that reaches the 500 handler), and the `Listing` / `Record` bodies of the
  GET routes. The message texts are the source's, typos included
  (`"reosource not found"`, `"resource already exist"`).
- `Handlers`: the eight mutating handlers, each a function from (store,
  request fields) to `Outcome(reply, store')`.
- `Views`: the GET handlers. A record is dumped to a dict keyed by the
  schema's fields (`Responses.Column`, each with its JSON key), fields are chosen
  by an `Exclude` or `Only` selector, and date texts are cut with `[:10]`.
  The crash of `get_subjects` is not hard-coded: it follows from that
  handler excluding `updated_on` and then reading it.
- `Routes`: one request constructor per route, the dispatcher `Handle`, and
  facts about every request.
- `Properties`: round trips and guards that relate several requests.

Time is a `Timestamp` parameter whose only observable part is its ISO text
`iso`, which is at least ten characters long, as `isoformat()` text always
is. Integers written to the store must fit SQLite's 64-bit INTEGER
(`Records.FitsInteger`); a wider `level` makes the commit raise. The key the database assigns to a new row is a parameter that must
not already be a key of its table. A query without ORDER BY is modelled as
listing rows in ascending id order (`Ordering.Ascending`).

The source's quirks are kept as written:
- the `lastname` update stores the body's `firstname`;
- `create_subject` loads its body outside the `try`, so a missing `sub_name`
  gives `Uncaught` rather than `"resource was not created"`;
- `get_subjects` fails on every non-empty table.

## Model

| member | source | states |
|---|---|---|
| Handlers.CreateStudent | app/api.py:102-113 | succeeds exactly when all five required fields are present and not null and `level` fits SQLite's 64-bit INTEGER (a wider one makes the commit raise inside the `try`); on success adds one student under the new key whose fields equal the body and whose join date is the clock reading, leaving everything else as it was; otherwise replies "resource was not created" with the store unchanged |
| Handlers.UpdateStudent | app/api.py:115-131 | missing id gives "resource not found" with no change; otherwise each field changes only when its body value is truthy, `lastname` takes the body's `firstname`, `stud_id` and `date_joined` never change, and a truthy `lastname` with a missing or null `firstname`, or a truthy `level` too wide for SQLite's 64-bit INTEGER, ends in the 500 handler with no change |
| Handlers.DeleteStudent | app/api.py:133-141 | an existing id is removed from the student table alone, the subject table is untouched and only its join rows go; a missing id replies "reosource not found" with no change |
| Handlers.CreateSubject | app/api.py:161-172 | a body without a usable `sub_name` ends in the 500 handler, never in the handler's own error reply, with no change; otherwise adds one subject with that name and both timestamps equal to the clock reading |
| Handlers.UpdateSubject | app/api.py:174-185 | on an existing id, `sub_name` is replaced and `updated_on` set to the clock reading exactly when the body's `sub_name` is truthy, `created_on` never changes, and otherwise the subject is unchanged; a missing id replies "resource not found" with no change |
| Handlers.DeleteSubject | app/api.py:187-195 | an existing id is removed from the subject table alone, the student table is untouched and only its join rows go; a missing id replies "reosource not found" with no change |
| Handlers.AddStudentSubject | app/api.py:216-227 | either id missing gives "resource not found", an existing pair gives "resource already exist", both with no change; otherwise exactly that pair is added and the reply names the student id |
| Handlers.DeleteStudentSubject | app/api.py:229-240 | either id missing gives "resource not found", a pair not enrolled gives "student cannot delete resource", both with no change; otherwise exactly that pair is removed |
| Views.Select | app/api.py:87 | an exclude selector keeps exactly the fields not named, an include selector exactly the fields named, values untouched |
| Views.Prefix10 | app/api.py:89 | the result is the first ten characters of the text, or the whole text when shorter |
| Views.TruncateKeys | app/api.py:147-149 | a missing key makes the row fail; when every key holds a text, those keys are cut to ten characters and the other fields are kept |
| Views.TruncateRows | app/api.py:88-89 | the loop over rows succeeds exactly when every row does, and then yields each row's truncation in order |
| Views.GetSubject | app/api.py:152-159 | an existing subject is shown as only its id and name; a missing one replies "resource not found" |
| Views.GetStudentSubjects | app/api.py:197-205 | an existing student is shown as id, first and last name and the names of its enrolled subjects, with no other fields; a missing one replies "resource not found" |
| Views.GetSubjectStudents | app/api.py:207-214 | an existing subject is shown as id, name and the first and last names of its students; a missing one replies "resource not found" |
| ViewFacts.StudentListDump | app/api.py:87 | excluding `subjects` from a student's dump leaves exactly its seven stored fields |
| ViewFacts.StudentRowIsSummary | app/api.py:96-97 | a student's dumped row without `subjects`, its join date cut, is the student's summary |
| ViewFacts.StudentListRows | app/api.py:87-89 | truncating the dumps of the listed students never fails and yields, row by row, each student's summary |
| ViewFacts.GetStudentsListsSummaries | app/api.py:84-90 | the student list never fails, has one row per stored student, in ascending id order, each row that student's summary with a ten-character date |
| ViewFacts.GetStudentShowsSummary | app/api.py:92-100 | the detail view of an existing student is its summary, with a ten-character date; a missing one replies "resource not found" |
| ViewFacts.GetSubjectsFailsUnlessEmpty | app/api.py:143-150 | the subject list ends in the 500 handler exactly when the subject table is not empty; an empty table lists no subjects |
| Ordering.Ascending | app/api.py:86 | lists every key once, in strictly ascending order |
| Responses.KeyInjective | app/api.py:43-77 | the schema fields are written under pairwise distinct JSON keys |
| Responses.Rendered | app/api.py:246-248 | an exception reaching the 500 handler becomes the "an uncaught exception occurred" error body; every other reply passes through |
| Routes.ClientSeesRenderedReply | app/api.py:246-248 | after the 500 handler no client sees a bare exception, and a client sees its error body exactly when the handler raised |
| Routes.HandlePreservesValid | app/api.py:102-240 | no request leaves a join row naming a missing student or subject |
| Routes.FailureChangesNothing | app/api.py:102-240 | an error reply, an exception and every GET route leave the store unchanged |
| Routes.UncaughtExactly | app/api.py:115-172 | the only requests that reach the 500 handler are the student update reading a missing or null `firstname` or committing a `level` too wide for the INTEGER column, the subject creation with an unusable body, and the subject list over a non-empty table |
| Properties.CreateThenGetStudent | app/api.py:92-113 | a created student reads back with exactly the submitted fields and its join date cut to its ten-character `YYYY-MM-DD` part; a body whose `level` is too wide creates nothing, so the key is not found |
| Properties.CreateThenGetSubject | app/api.py:152-172 | a created subject reads back as its id and submitted name |
| Properties.DeleteThenGetStudent | app/api.py:92-141 | after deletion the student is not found, and deleting it again replies "reosource not found" |
| Properties.AddTwice | app/api.py:216-227 | adding the same pair twice succeeds once and then replies "resource already exist" with no change |
| Properties.AddThenDelete | app/api.py:216-240 | enrolling a pair and then removing it restores the store |
| Properties.DeleteThenAdd | app/api.py:216-240 | removing an enrolled pair and adding it back restores the store; a second removal is refused |
| Properties.AddThenListed | app/api.py:197-227 | after a successful enrolment the student's subject view lists the subject's name |
| Properties.AddThenListedOnSubject | app/api.py:207-227 | after a successful enrolment the subject's student view lists the student's first and last name |
| Properties.UpdateStudentIdempotent | app/api.py:115-131 | a successful student update applied twice has the effect of applying it once |
| Properties.LastNameTakesFirstName | app/api.py:122-123 | a body with a new last name and an empty first name blanks the last name and keeps the first name |
| Properties.AddedMessageNamesStudent | app/api.py:225 | the enrolment message is the fixed prefix followed by the decimal digits of the student id, which read back as that id |
| Properties.AddedMessageInjective | app/api.py:225 | distinct student ids give distinct enrolment messages |
| Decimal.ParseShow | app/api.py:225 | the decimal rendering of an id reads back as the id |

## Left out

- Flask routing, JSON parsing, `jsonify` / `make_response` and HTTP status codes: a reply is the envelope alone.
- The SQLAlchemy session, `commit`, `Query.get` and migrations: the maps replace them. Each handler's writes are taken as one atomic step.
- Routes.UncaughtExactly: does not cover route ids of 2^63 or more. `Query.get` cannot bind them to an SQLite INTEGER and raises, so such a request ends in the 500 handler; the model instead looks the id up and reports it missing. Stored keys are always below that bound, so only the reply differs, never the store.
- Handlers.DeleteStudent: removing the deleted record's join rows is the mapper's handling of a `secondary` relationship, not code in `app/api.py`; the model assumes it (the same holds for Handlers.DeleteSubject).
- The `flask_admin` views: administrative UI scaffold with no handler logic.
- Marshmallow internals: only the effects the handlers use are modelled. These are the required-field check of `load` (marshmallow 3, which raises) and `exclude=` / `only=` selection. Unknown keys and wrongly typed values in a body are not modelled; the payload types rule them out.
- Field key order of `ordered = True`: a dict is a map.
- Column length limits (`String(6)`, `String(20)`, `String(100)`): declarations the model does not enforce.
- Real `datetime.utcnow` values and ISO formatting: a `Timestamp` parameter carrying its ISO text.
- Routes.ClientSeesRenderedReply: both facts, and Responses.Rendered, assume exceptions are not propagated (debug mode and `PROPAGATE_EXCEPTIONS` off, as under `flask run` without debug); under the file's own entry point `app.run(debug=True)` Flask re-raises instead of calling the 500 handler and the client gets the debugger's traceback page.
- Handlers.CreateSubject: `created_on` and `updated_on` take the same clock reading, although the column defaults call `utcnow` once each and may differ by microseconds.
- The order of query results: no ORDER BY appears, and the model lists rows in ascending id order.
- A request body that is not a JSON object (`get_json()` returning None).
- Concurrent check-then-insert races on enrolment.
- Authentication and tokens: there is none in `app/api.py`.
- The 404, 403 and 405 handlers: framework routing errors, outside the handlers modelled.
