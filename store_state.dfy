/** The in-memory store's state as one value, the snapshot it persists and the invariant it keeps. */
module StoreState {

  import opened Optional
  import opened Records
  import opened OrderedMaps

  /** The object written under the storage key: the values of the three maps, in map order, and the
      three id counters. */
  datatype Snapshot = Snapshot(
    classes: seq<ClassGroup>,
    students: seq<Student>,
    homeworkRecords: seq<HomeworkRecord>,
    nextClassId: int,
    nextStudentId: int,
    nextRecordId: int)

  /** The three maps and three counters of the store. */
  datatype State = State(
    classes: map<int, ClassGroup>,
    students: map<int, Student>,
    homeworkRecords: map<int, HomeworkRecord>,
    nextClassId: int,
    nextStudentId: int,
    nextRecordId: int)

  /** The state of a store that has loaded nothing: empty maps, every counter at 1. */
  const Initial := State(map[], map[], map[], 1, 1, 1)

  function ClassKey(c: ClassGroup): int { c.id }
  function StudentKey(s: Student): int { s.id }
  function RecordKey(r: HomeworkRecord): int { r.id }

  /** `new Map(items.map(x => [x.id, x]))`: every item under its id, a later item replacing an earlier
      one with the same id. */
  function Index<T>(items: seq<T>, key: T -> int): (m: map<int, T>)
    ensures forall x :: x in items ==> key(x) in m
    ensures forall k :: k in m ==> key(m[k]) == k && m[k] in items
    decreases |items|
  {
    if items == [] then map[]
    else
      var init, last := items[..|items| - 1], items[|items| - 1];
      assert items == init + [last];
      Index(init, key)[key(last) := last]
  }

  /** Of several listed entries with the same id, the last one is the one stored. */
  lemma {:induction false} IndexLastWins<T>(items: seq<T>, key: T -> int, i: int)
    requires 0 <= i < |items|
    requires forall j :: i < j < |items| ==> key(items[j]) != key(items[i])
    ensures key(items[i]) in Index(items, key) && Index(items, key)[key(items[i])] == items[i]
    decreases |items|
  {
    var init := items[..|items| - 1];
    if i < |items| - 1 {
      assert forall j :: i < j < |init| ==> init[j] == items[j];
      IndexLastWins(init, key, i);
      assert init[i] == items[i];
    }
  }

  /** `value || 1` for a counter read back from storage. */
  function OrOne(n: int): int {
    if n == 0 then 1 else n
  }

  /** What `saveToStorage` writes: each list holds every entry of its map once, and the counters are
      written as they are. */
  function Save(st: State): (snap: Snapshot)
    ensures |snap.classes| == |st.classes| && forall c :: c in snap.classes <==> c in st.classes.Values
    ensures |snap.students| == |st.students| && forall s :: s in snap.students <==> s in st.students.Values
    ensures |snap.homeworkRecords| == |st.homeworkRecords|
    ensures forall r :: r in snap.homeworkRecords <==> r in st.homeworkRecords.Values
    ensures snap.nextClassId == st.nextClassId && snap.nextStudentId == st.nextStudentId
    ensures snap.nextRecordId == st.nextRecordId
  {
    forall c ensures c in Values(st.classes) <==> c in st.classes.Values {
      ValuesListsMap(st.classes, c);
    }
    forall s ensures s in Values(st.students) <==> s in st.students.Values {
      ValuesListsMap(st.students, s);
    }
    forall r ensures r in Values(st.homeworkRecords) <==> r in st.homeworkRecords.Values {
      ValuesListsMap(st.homeworkRecords, r);
    }
    Snapshot(Values(st.classes), Values(st.students), Values(st.homeworkRecords),
      st.nextClassId, st.nextStudentId, st.nextRecordId)
  }

  /** What `loadFromStorage` restores from a snapshot: every listed entry under its id and nothing that
      was not listed; a counter of 0 becomes 1 and every other counter is kept. */
  function Load(snap: Snapshot): (st: State)
    ensures forall c :: c in snap.classes ==> c.id in st.classes
    ensures forall k :: k in st.classes ==> st.classes[k].id == k && st.classes[k] in snap.classes
    ensures forall s :: s in snap.students ==> s.id in st.students
    ensures forall k :: k in st.students ==> st.students[k].id == k && st.students[k] in snap.students
    ensures forall r :: r in snap.homeworkRecords ==> r.id in st.homeworkRecords
    ensures forall k :: k in st.homeworkRecords ==> st.homeworkRecords[k].id == k && st.homeworkRecords[k] in snap.homeworkRecords
    ensures st.nextClassId != 0 && (snap.nextClassId != 0 ==> st.nextClassId == snap.nextClassId)
    ensures st.nextStudentId != 0 && (snap.nextStudentId != 0 ==> st.nextStudentId == snap.nextStudentId)
    ensures st.nextRecordId != 0 && (snap.nextRecordId != 0 ==> st.nextRecordId == snap.nextRecordId)
  {
    State(Index(snap.classes, ClassKey), Index(snap.students, StudentKey), Index(snap.homeworkRecords, RecordKey),
      OrOne(snap.nextClassId), OrOne(snap.nextStudentId), OrOne(snap.nextRecordId))
  }

  /** Every entry is stored under its own id, and every id is positive and below the counter that
      will hand out the next one. */
  predicate Keyed<T>(m: map<int, T>, key: T -> int, next: int) {
    forall k :: k in m ==> key(m[k]) == k && 0 < k < next
  }

  /** Some record is for this student on this date. */
  predicate HasDay(m: map<int, HomeworkRecord>, studentId: int, date: string) {
    exists k :: k in m && m[k].studentId == studentId && m[k].date == date
  }

  /** At most one record per (student, date). */
  predicate OneRecordPerDay(m: map<int, HomeworkRecord>) {
    forall a, b :: a in m && b in m && m[a].studentId == m[b].studentId && m[a].date == m[b].date ==> a == b
  }

  /** The invariant every operation of the store keeps. */
  predicate WellFormed(st: State) {
    && 1 <= st.nextClassId && 1 <= st.nextStudentId && 1 <= st.nextRecordId
    && Keyed(st.classes, ClassKey, st.nextClassId)
    && Keyed(st.students, StudentKey, st.nextStudentId)
    && Keyed(st.homeworkRecords, RecordKey, st.nextRecordId)
    && OneRecordPerDay(st.homeworkRecords)
  }

  /** Every student's class exists and every record's student exists. The store does not check this on
      create or update; the cascading deletes keep it. */
  predicate Linked(st: State) {
    && (forall k :: k in st.students ==> st.students[k].classId in st.classes)
    && (forall k :: k in st.homeworkRecords ==> st.homeworkRecords[k].studentId in st.students)
  }

  /** The state after removing some classes, students and records. */
  function Without(st: State, cs: set<int>, ss: set<int>, rs: set<int>): State {
    st.(classes := st.classes - cs, students := st.students - ss, homeworkRecords := st.homeworkRecords - rs)
  }

  /** The keys of the students of one class. */
  function Members(m: map<int, Student>, classId: int): set<int> {
    set k | k in m && m[k].classId == classId
  }

  /** The keys of the records of any of the given students. */
  function RecordsOf(m: map<int, HomeworkRecord>, studentIds: set<int>): set<int> {
    set k | k in m && m[k].studentId in studentIds
  }

  /** Removing entries keeps the invariant. */
  lemma WithoutWellFormed(st: State, cs: set<int>, ss: set<int>, rs: set<int>)
    requires WellFormed(st)
    ensures WellFormed(Without(st, cs, ss, rs))
  {
    var after := Without(st, cs, ss, rs);
    assert OneRecordPerDay(after.homeworkRecords) by {
      forall a, b | a in after.homeworkRecords && b in after.homeworkRecords
        && after.homeworkRecords[a].studentId == after.homeworkRecords[b].studentId
        && after.homeworkRecords[a].date == after.homeworkRecords[b].date
        ensures a == b
      {
        assert after.homeworkRecords[a] == st.homeworkRecords[a] && after.homeworkRecords[b] == st.homeworkRecords[b];
      }
    }
  }

  /** Deleting a class with its students and their records leaves nothing dangling. */
  lemma DeleteClassLinked(st: State, id: int)
    requires Linked(st)
    ensures Linked(Without(st, {id}, Members(st.students, id), RecordsOf(st.homeworkRecords, Members(st.students, id))))
  {
  }

  /** Deleting a student with the student's records leaves nothing dangling. */
  lemma DeleteStudentLinked(st: State, id: int)
    requires Linked(st)
    ensures Linked(Without(st, {}, {id}, RecordsOf(st.homeworkRecords, {id})))
  {
  }

  /** The state after overwriting the status and note of the record under `k`. */
  function Overwritten(st: State, k: int, status: HomeworkStatus, note: Option<string>, now: string): State
    requires k in st.homeworkRecords
  {
    st.(homeworkRecords := st.homeworkRecords[k := st.homeworkRecords[k].(status := status, note := note, updatedAt := now)])
  }

  /** The state after adding a record under the next record id. */
  function Appended(st: State, studentId: int, date: string, status: HomeworkStatus, note: Option<string>, now: string): State {
    var id := st.nextRecordId;
    st.(homeworkRecords := st.homeworkRecords[id := HomeworkRecord(id, studentId, date, status, note, now, now)],
        nextRecordId := id + 1)
  }

  /** Overwriting a record's status and note keeps the invariant and the links. */
  lemma OverwrittenWellFormed(st: State, k: int, status: HomeworkStatus, note: Option<string>, now: string)
    requires WellFormed(st) && k in st.homeworkRecords
    ensures WellFormed(Overwritten(st, k, status, note, now))
    ensures Linked(st) ==> Linked(Overwritten(st, k, status, note, now))
  {
    var m := Overwritten(st, k, status, note, now).homeworkRecords;
    forall a, b | a in m && b in m && m[a].studentId == m[b].studentId && m[a].date == m[b].date
      ensures a == b
    {
      assert m[a].studentId == st.homeworkRecords[a].studentId && m[a].date == st.homeworkRecords[a].date;
      assert m[b].studentId == st.homeworkRecords[b].studentId && m[b].date == st.homeworkRecords[b].date;
    }
  }

  /** Adding a record for a (student, date) that has none keeps the invariant; adding it for an existing
      student keeps the links. */
  lemma AppendedWellFormed(st: State, studentId: int, date: string, status: HomeworkStatus, note: Option<string>, now: string)
    requires WellFormed(st) && !HasDay(st.homeworkRecords, studentId, date)
    ensures WellFormed(Appended(st, studentId, date, status, note, now))
    ensures Linked(st) && studentId in st.students ==> Linked(Appended(st, studentId, date, status, note, now))
  {
    var m := Appended(st, studentId, date, status, note, now).homeworkRecords;
    var id := st.nextRecordId;
    assert forall a :: a in m && a != id ==> a in st.homeworkRecords && m[a] == st.homeworkRecords[a];
    assert forall a :: a in m && a != id ==> !(m[a].studentId == studentId && m[a].date == date);
  }

  /** Indexing a list that holds exactly the values of a map keyed by id, each stored under its id,
      rebuilds the map. */
  lemma IndexRebuilds<T>(items: seq<T>, key: T -> int, m: map<int, T>)
    requires forall k :: k in m ==> key(m[k]) == k && m[k] in items
    requires forall x :: x in items ==> key(x) in m && m[key(x)] == x
    ensures Index(items, key) == m
  {
    var n := Index(items, key);
    assert forall k :: k in m ==> k in n && n[k] == m[k];
    assert n.Keys == m.Keys;
  }

  /** Indexing the values of a map keyed by id rebuilds the map. */
  lemma IndexValues<T>(m: map<int, T>, key: T -> int)
    requires forall k :: k in m ==> key(m[k]) == k
    ensures Index(Values(m), key) == m
  {
    var items := Values(m);
    assert forall k :: k in m ==> m[k] in items by {
      forall k | k in m ensures m[k] in items {
        ValuesListsMap(m, m[k]);
      }
    }
    assert forall x :: x in items ==> key(x) in m && m[key(x)] == x by {
      forall x | x in items ensures key(x) in m && m[key(x)] == x {
        ValuesListsMap(m, x);
      }
    }
    IndexRebuilds(items, key, m);
  }

  /** Restoring what was saved gives back the same state. */
  lemma LoadSave(st: State)
    requires WellFormed(st)
    ensures Load(Save(st)) == st
  {
    IndexValues(st.classes, ClassKey);
    IndexValues(st.students, StudentKey);
    IndexValues(st.homeworkRecords, RecordKey);
  }
}
