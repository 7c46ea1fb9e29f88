/** The record model of the homework manager: classes, students, per-day homework records,
    the closed set of homework statuses and the table the screens use to show them. */
module Records {

  import opened Optional

  /** The four homework statuses; no other value exists. */
  datatype HomeworkStatus = Done | Partial | NotDone | Absent

  /** The string a status is stored and compared as. */
  function StatusValue(s: HomeworkStatus): string {
    match s
    case Done => "done"
    case Partial => "partial"
    case NotDone => "not_done"
    case Absent => "absent"
  }

  /** Reads a stored status string back; only the four status strings are statuses. */
  function ParseStatus(text: string): (r: Option<HomeworkStatus>)
    ensures r.Some? ==> StatusValue(r.value) == text
    ensures r.None? <==> forall s: HomeworkStatus :: StatusValue(s) != text
  {
    if text == "done" then Some(Done)
    else if text == "partial" then Some(Partial)
    else if text == "not_done" then Some(NotDone)
    else if text == "absent" then Some(Absent)
    else None
  }

  /** Storing a status and reading it back gives the same status. */
  lemma StatusRoundTrip(s: HomeworkStatus)
    ensures ParseStatus(StatusValue(s)) == Some(s)
  {
  }

  /** One row of the status table: the status, its display label and its two colour classes. */
  datatype StatusOption = StatusOption(value: HomeworkStatus, displayLabel: string, color: string, bgColor: string)

  const HomeworkStatusOptions: seq<StatusOption> := [
    StatusOption(Done, "함", "text-success-700", "bg-success-100"),
    StatusOption(Partial, "덜 함", "text-warning-700", "bg-warning-100"),
    StatusOption(NotDone, "안 함", "text-danger-700", "bg-danger-100"),
    StatusOption(Absent, "결석", "text-gray-700", "bg-gray-100")
  ]

  /** The position of a status in the status table: every status has exactly one row. */
  function StatusIndex(s: HomeworkStatus): (i: nat)
    ensures i < |HomeworkStatusOptions| && HomeworkStatusOptions[i].value == s
    ensures forall j :: 0 <= j < |HomeworkStatusOptions| && HomeworkStatusOptions[j].value == s ==> j == i
  {
    match s
    case Done => 0
    case Partial => 1
    case NotDone => 2
    case Absent => 3
  }

  /** A class (a cohort of students). */
  datatype ClassGroup = ClassGroup(
    id: int,
    name: string,
    description: Option<string>,
    createdAt: string,
    updatedAt: string)

  /** A student; `classId` names the one class the student belongs to. */
  datatype Student = Student(
    id: int,
    classId: int,
    name: string,
    grade: Option<string>,
    phone: Option<string>,
    parentPhone: Option<string>,
    note: Option<string>,
    createdAt: string,
    updatedAt: string)

  /** What a caller supplies to create a student: a student without id and timestamps. */
  datatype StudentDraft = StudentDraft(
    classId: int,
    name: string,
    grade: Option<string>,
    phone: Option<string>,
    parentPhone: Option<string>,
    note: Option<string>)

  /** What a caller supplies to update a student: a student without timestamps. */
  datatype StudentUpdate = StudentUpdate(
    id: int,
    classId: int,
    name: string,
    grade: Option<string>,
    phone: Option<string>,
    parentPhone: Option<string>,
    note: Option<string>)

  /** One status observation for one student on one `YYYY-MM-DD` date. */
  datatype HomeworkRecord = HomeworkRecord(
    id: int,
    studentId: int,
    date: string,
    status: HomeworkStatus,
    note: Option<string>,
    createdAt: string,
    updatedAt: string)

  /** What a caller supplies to save a record: a record without id and timestamps. */
  datatype RecordDraft = RecordDraft(
    studentId: int,
    date: string,
    status: HomeworkStatus,
    note: Option<string>)
}
