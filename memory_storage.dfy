/** The in-memory storage backend: three maps keyed by id and three id counters, with create,
    update, cascading delete, upsert, range queries and the monthly statistics. */
module MemoryStorage {

  import opened Optional
  import opened Records
  import opened Text
  import opened Seqs
  import opened Sorting
  import opened OrderedMaps
  import opened Aggregation
  import opened StoreState

  /** A thrown `Error` of the update operations, or normal completion. */
  datatype Outcome = Ok | NotFound(message: string)

  const ClassNotFound := "반을 찾을 수 없습니다."
  const StudentNotFound := "학생을 찾을 수 없습니다."

  /** `description || ''`: a missing or empty description is stored as the empty string. */
  function OrEmpty(d: Option<string>): string {
    if d.Some? then d.value else ""
  }

  /** A JavaScript truthiness test on an optional string: present and non-empty. */
  predicate Truthy(d: Option<string>) {
    d.Some? && d.value != ""
  }

  function InClass(classId: int): Student -> bool {
    (s: Student) => s.classId == classId
  }

  function OfStudent(studentId: int): HomeworkRecord -> bool {
    (r: HomeworkRecord) => r.studentId == studentId
  }

  function OfAnyStudent(ids: set<int>): HomeworkRecord -> bool {
    (r: HomeworkRecord) => r.studentId in ids
  }

  function OnOrAfter(startDate: string): HomeworkRecord -> bool {
    (r: HomeworkRecord) => LexLe(startDate, r.date)
  }

  function OnOrBefore(endDate: string): HomeworkRecord -> bool {
    (r: HomeworkRecord) => LexLe(r.date, endDate)
  }

  function SameDay(studentId: int, date: string): HomeworkRecord -> bool {
    (r: HomeworkRecord) => r.studentId == studentId && r.date == date
  }

  function InDateRange(startDate: string, endDate: string): HomeworkRecord -> bool {
    (r: HomeworkRecord) => InRange(r.date, startDate, endDate)
  }

  function OnDateFor(date: string, ids: seq<int>): HomeworkRecord -> bool {
    (r: HomeworkRecord) => r.date == date && r.studentId in ids
  }

  /** The comparator `(a, b) => b.date.localeCompare(a.date)`: later dates first. */
  predicate DateDesc(a: HomeworkRecord, b: HomeworkRecord) {
    LexLe(b.date, a.date)
  }

  /** The comparator `(a, b) => a.studentId - b.studentId`. */
  predicate StudentIdLe(a: HomeworkRecord, b: HomeworkRecord) {
    a.studentId <= b.studentId
  }

  /** The ids of a list of students, in order. */
  function IdList(ss: seq<Student>): (ids: seq<int>)
    ensures |ids| == |ss|
  {
    seq(|ss|, i requires 0 <= i < |ss| => ss[i].id)
  }

  /** The ids of a list of entries, as a set. */
  function IdSet<T>(items: seq<T>, key: T -> int): set<int> {
    set i | 0 <= i < |items| :: key(items[i])
  }

  /** A student-statistics row before its completion rate is computed. */
  function PendingRow(rs: seq<HomeworkRecord>, sc: Scope, key: int): StudentMonthlyStat
    requires KnownKey(key, sc, ByStudent)
  {
    var student := sc.students[key];
    StudentMonthlyStat(key, student.name, sc.classes[student.classId].name, GroupCounts(rs, sc, ByStudent, key), 0)
  }

  /** A date passes the optional bounds of `getHomeworkRecords`; a missing or empty bound passes all. */
  predicate InBounds(d: string, startDate: Option<string>, endDate: Option<string>) {
    && (Truthy(startDate) ==> LexLe(startDate.value, d))
    && (Truthy(endDate) ==> LexLe(d, endDate.value))
  }

  /** Latest-first is a consistent order: any two records compare, and comparison chains. */
  lemma DateDescOrder()
    ensures TotalPreorder(DateDesc)
  {
    forall a: HomeworkRecord, b: HomeworkRecord ensures DateDesc(a, b) || DateDesc(b, a) {
      LexLeTotal(a.date, b.date);
    }
    forall a: HomeworkRecord, b: HomeworkRecord, c: HomeworkRecord | DateDesc(a, b) && DateDesc(b, c)
      ensures DateDesc(a, c)
    {
      LexLeTransitive(c.date, b.date, a.date);
    }
  }

  lemma StudentIdOrder()
    ensures TotalPreorder(StudentIdLe)
  {
  }

  /** The values of a map keyed by id hold no record twice. */
  lemma ValuesDistinct<T>(m: map<int, T>, key: T -> int)
    requires forall k :: k in m ==> key(m[k]) == k
    ensures Distinct(Values(m))
  {
    var v := Values(m);
    var ks := SortedKeys(m.Keys);
    forall i, j | 0 <= i < j < |v| ensures v[i] != v[j] {
      assert key(v[i]) == ks[i] && key(v[j]) == ks[j];
    }
  }

  /** The first part of `getHomeworkRecords`: a student's records between the optional bounds, in
      map order. */
  function BoundedRecords(m: map<int, HomeworkRecord>, studentId: int, startDate: Option<string>, endDate: Option<string>)
    : (r: seq<HomeworkRecord>)
    ensures forall x :: x in r <==> x in m.Values && x.studentId == studentId && InBounds(x.date, startDate, endDate)
    ensures (forall k :: k in m ==> m[k].id == k) ==> Distinct(r)
  {
    var all := Filter(Values(m), OfStudent(studentId));
    var fromStart := if Truthy(startDate) then Filter(all, OnOrAfter(startDate.value)) else all;
    var records := if Truthy(endDate) then Filter(fromStart, OnOrBefore(endDate.value)) else fromStart;
    assert forall x :: x in records <==> x in m.Values && x.studentId == studentId && InBounds(x.date, startDate, endDate) by {
      forall x ensures x in records <==> x in m.Values && x.studentId == studentId && InBounds(x.date, startDate, endDate) {
        FilterMembers(Values(m), OfStudent(studentId), x);
        ValuesListsMap(m, x);
        if Truthy(startDate) {
          FilterMembers(all, OnOrAfter(startDate.value), x);
        }
        if Truthy(endDate) {
          FilterMembers(fromStart, OnOrBefore(endDate.value), x);
        }
      }
    }
    assert (forall k :: k in m ==> m[k].id == k) ==> Distinct(records) by {
      if forall k :: k in m ==> m[k].id == k {
        ValuesDistinct(m, RecordKey);
        FilterDistinct(Values(m), OfStudent(studentId));
        if Truthy(startDate) {
          FilterDistinct(all, OnOrAfter(startDate.value));
        }
        if Truthy(endDate) {
          FilterDistinct(fromStart, OnOrBefore(endDate.value));
        }
      }
    }
    records
  }

  /** The id list holds the id of every listed student and nothing else. */
  lemma IdListMembers(ss: seq<Student>)
    ensures forall id :: id in IdList(ss) <==> exists s :: s in ss && s.id == id
  {
    var ids := IdList(ss);
    forall id ensures id in ids <==> exists s :: s in ss && s.id == id {
      if id in ids {
        var i :| 0 <= i < |ids| && ids[i] == id;
        assert ss[i] in ss;
      }
      if exists s :: s in ss && s.id == id {
        var s :| s in ss && s.id == id;
        var i :| 0 <= i < |ss| && ss[i] == s;
        assert ids[i] == id;
      }
    }
  }

  /** The ids collected by `getHomeworkRecordsByClassAndDate` are exactly those of the class's students. */
  lemma ClassMemberIds(m: map<int, Student>, classId: int)
    ensures forall id :: id in IdList(Filter(Values(m), InClass(classId))) <==>
      exists s :: s in m.Values && s.classId == classId && s.id == id
  {
    var inClass := Filter(Values(m), InClass(classId));
    IdListMembers(inClass);
    FilterValues(m, InClass(classId));
  }

  /** The records of `getHomeworkRecordsByClassAndDate` before sorting: those on the date whose student
      is one of the given students, in map order. */
  function RecordsOnDateFor(m: map<int, HomeworkRecord>, date: string, studentsInClass: seq<int>): (r: seq<HomeworkRecord>)
    ensures forall x :: x in r <==> x in m.Values && x.date == date && x.studentId in studentsInClass
    ensures (forall k :: k in m ==> m[k].id == k) ==> Distinct(r)
  {
    FilterValues(m, OnDateFor(date, studentsInClass));
    assert (forall k :: k in m ==> m[k].id == k) ==> Distinct(Filter(Values(m), OnDateFor(date, studentsInClass))) by {
      if forall k :: k in m ==> m[k].id == k {
        ValuesDistinct(m, RecordKey);
        FilterDistinct(Values(m), OnDateFor(date, studentsInClass));
      }
    }
    Filter(Values(m), OnDateFor(date, studentsInClass))
  }

  /** Finding in a map's values finds an entry of the map, and finds nothing exactly when no entry
      matches. */
  lemma FindInValues<T>(m: map<int, T>, p: T -> bool)
    ensures Find(Values(m), p).None? <==> forall k :: k in m ==> !p(m[k])
    ensures Find(Values(m), p).Some? ==> Find(Values(m), p).value in m.Values && p(Find(Values(m), p).value)
  {
    var r := Find(Values(m), p);
    if r.Some? {
      var i :| 0 <= i < |Values(m)| && Values(m)[i] == r.value && p(Values(m)[i]);
      ValuesListsMap(m, r.value);
    } else {
      forall k | k in m ensures !p(m[k]) {
        ValuesListsMap(m, m[k]);
      }
    }
  }

  /** Filtering a map's values keeps exactly the entries that pass. */
  lemma FilterValues<T(!new)>(m: map<int, T>, p: T -> bool)
    ensures forall x :: x in Filter(Values(m), p) <==> x in m.Values && p(x)
  {
    forall x ensures x in Filter(Values(m), p) <==> x in m.Values && p(x) {
      FilterMembers(Values(m), p, x);
      ValuesListsMap(m, x);
    }
  }

  /** The ids of the filtered values of a map keyed by id are the keys of the entries that pass. */
  lemma FilteredIds<T(!new)>(m: map<int, T>, key: T -> int, p: T -> bool)
    requires forall k :: k in m ==> key(m[k]) == k
    ensures IdSet(Filter(Values(m), p), key) == set k | k in m && p(m[k])
  {
    var f := Filter(Values(m), p);
    FilterValues(m, p);
    forall k | k in m && p(m[k]) ensures k in IdSet(f, key) {
      assert m[k] in f;
      var i :| 0 <= i < |f| && f[i] == m[k];
    }
    forall k | k in IdSet(f, key) ensures k in m && p(m[k]) {
      var i :| 0 <= i < |f| && key(f[i]) == k;
      assert f[i] in f;
    }
  }

  lemma IdSetStep<T>(items: seq<T>, key: T -> int, i: int)
    requires 0 <= i < |items|
    ensures IdSet(items[..i + 1], key) == IdSet(items[..i], key) + {key(items[i])}
  {
    var a, b := items[..i + 1], items[..i];
    forall k | k in IdSet(a, key) ensures k in IdSet(b, key) + {key(items[i])} {
      var j :| 0 <= j < |a| && key(a[j]) == k;
      if j < i {
        assert key(b[j]) == k;
      }
    }
    forall k | k in IdSet(b, key) + {key(items[i])} ensures k in IdSet(a, key) {
      if k != key(items[i]) {
        var j :| 0 <= j < |b| && key(b[j]) == k;
        assert key(a[j]) == k;
      } else {
        assert key(a[i]) == k;
      }
    }
  }

  lemma RemoveOneMore<T>(m: map<int, T>, gone: set<int>, k: int)
    ensures m - gone - {k} == m - (gone + {k})
  {
  }

  lemma RemoveNothing<T>(m: map<int, T>)
    ensures m - {} == m
  {
  }

  /** The per-class accumulator after the records `rs`: the keys in order of first appearance and,
      under each key, the class's row with the counters of `rs`. */
  ghost predicate ClassTally(rs: seq<HomeworkRecord>, sc: Scope, stats: map<int, ClassMonthlyStat>, keys: seq<int>) {
    && keys == GroupOrder(rs, sc, ByClass)
    && (forall k :: k in stats <==> k in keys)
    && (forall k :: k in stats ==> k in sc.classes && stats[k] == ClassRow(rs, sc, k))
  }

  /** A record that does not count leaves the accumulator as it is. */
  lemma ClassTallySkip(rs: seq<HomeworkRecord>, r: HomeworkRecord, sc: Scope, stats: map<int, ClassMonthlyStat>, keys: seq<int>)
    requires ClassTally(rs, sc, stats, keys)
    requires !(r.studentId in sc.students && sc.students[r.studentId].classId in sc.classes)
    ensures ClassTally(rs + [r], sc, stats, keys)
  {
    GroupOrderSnoc(rs, r, sc, ByClass);
    forall k | k in stats ensures stats[k] == ClassRow(rs + [r], sc, k) {
      GroupCountsSnoc(rs, r, sc, ByClass, k);
    }
  }

  /** A counted record of a class seen before ticks that class's counters. */
  lemma ClassTallyOld(rs: seq<HomeworkRecord>, r: HomeworkRecord, sc: Scope, stats: map<int, ClassMonthlyStat>, keys: seq<int>)
    requires ClassTally(rs, sc, stats, keys)
    requires Counted(r, sc) && KeyOf(r, sc, ByClass) in stats
    ensures var key := KeyOf(r, sc, ByClass);
      ClassTally(rs + [r], sc, stats[key := stats[key].(counts := Tick(stats[key].counts, r.status))], keys)
  {
    var key := KeyOf(r, sc, ByClass);
    var stats' := stats[key := stats[key].(counts := Tick(stats[key].counts, r.status))];
    GroupOrderSnoc(rs, r, sc, ByClass);
    forall k | k in stats' ensures stats'[k] == ClassRow(rs + [r], sc, k) {
      GroupCountsSnoc(rs, r, sc, ByClass, k);
    }
  }

  /** A counted record of a class not seen before adds the class, with the record's tick, at the end. */
  lemma ClassTallyNew(rs: seq<HomeworkRecord>, r: HomeworkRecord, sc: Scope, stats: map<int, ClassMonthlyStat>, keys: seq<int>)
    requires ClassTally(rs, sc, stats, keys)
    requires Counted(r, sc) && KeyOf(r, sc, ByClass) !in stats
    ensures var key := KeyOf(r, sc, ByClass);
      ClassTally(rs + [r], sc, stats[key := ClassMonthlyStat(key, sc.classes[key].name, Tick(NoCounts, r.status))], keys + [key])
  {
    var key := KeyOf(r, sc, ByClass);
    var stats' := stats[key := ClassMonthlyStat(key, sc.classes[key].name, Tick(NoCounts, r.status))];
    GroupOrderSnoc(rs, r, sc, ByClass);
    assert stats'[key] == ClassRow(rs + [r], sc, key) by {
      GroupCountsAbsent(rs, sc, ByClass, key);
      GroupCountsSnoc(rs, r, sc, ByClass, key);
    }
    forall k | k in stats && k != key ensures stats'[k] == ClassRow(rs + [r], sc, k) {
      GroupCountsSnoc(rs, r, sc, ByClass, k);
    }
  }

  /** Once every in-range record is tallied, the rows in key order are the month's per-class statistics. */
  lemma ClassTallyRows(all: seq<HomeworkRecord>, sc: Scope, inRange: HomeworkRecord -> bool, stats: map<int, ClassMonthlyStat>, keys: seq<int>)
    requires forall r :: inRange(r) == InRange(r.date, sc.startDate, sc.endDate)
    requires ClassTally(Filter(all, inRange), sc, stats, keys)
    ensures forall i :: 0 <= i < |keys| ==> keys[i] in stats
    ensures InOrder(stats, keys) == MonthlyStats(all, sc)
  {
    DropUncountedOrder(all, sc, ByClass, inRange);
    forall i | 0 <= i < |keys| ensures keys[i] in stats && stats[keys[i]] == ClassRow(all, sc, keys[i]) {
      assert keys[i] in keys;
      DropUncountedCounts(all, sc, ByClass, inRange, keys[i]);
    }
  }

  /** The per-student accumulator after the records `rs`: the keys in order of first appearance and,
      under each key, the student's row with the counters of `rs` and the rate not yet computed. */
  ghost predicate StudentTally(rs: seq<HomeworkRecord>, sc: Scope, stats: map<int, StudentMonthlyStat>, keys: seq<int>) {
    && keys == GroupOrder(rs, sc, ByStudent)
    && (forall k :: k in stats <==> k in keys)
    && (forall k :: k in stats ==> KnownKey(k, sc, ByStudent) && stats[k] == PendingRow(rs, sc, k))
  }

  /** A record that does not count leaves the accumulator as it is. */
  lemma StudentTallySkip(rs: seq<HomeworkRecord>, r: HomeworkRecord, sc: Scope, stats: map<int, StudentMonthlyStat>, keys: seq<int>)
    requires StudentTally(rs, sc, stats, keys)
    requires !(r.studentId in sc.students && sc.students[r.studentId].classId in sc.classes)
    ensures StudentTally(rs + [r], sc, stats, keys)
  {
    GroupOrderSnoc(rs, r, sc, ByStudent);
    forall k | k in stats ensures stats[k] == PendingRow(rs + [r], sc, k) {
      GroupCountsSnoc(rs, r, sc, ByStudent, k);
    }
  }

  /** A counted record of a student seen before ticks that student's counters. */
  lemma StudentTallyOld(rs: seq<HomeworkRecord>, r: HomeworkRecord, sc: Scope, stats: map<int, StudentMonthlyStat>, keys: seq<int>)
    requires StudentTally(rs, sc, stats, keys)
    requires Counted(r, sc) && r.studentId in stats
    ensures var key := r.studentId;
      StudentTally(rs + [r], sc, stats[key := stats[key].(counts := Tick(stats[key].counts, r.status))], keys)
  {
    var key := r.studentId;
    var stats' := stats[key := stats[key].(counts := Tick(stats[key].counts, r.status))];
    GroupOrderSnoc(rs, r, sc, ByStudent);
    forall k | k in stats' ensures stats'[k] == PendingRow(rs + [r], sc, k) {
      GroupCountsSnoc(rs, r, sc, ByStudent, k);
    }
  }

  /** A counted record of a student not seen before adds the student, with the record's tick, at the end. */
  lemma StudentTallyNew(rs: seq<HomeworkRecord>, r: HomeworkRecord, sc: Scope, stats: map<int, StudentMonthlyStat>, keys: seq<int>)
    requires StudentTally(rs, sc, stats, keys)
    requires Counted(r, sc) && r.studentId !in stats
    ensures var key := r.studentId; var student := sc.students[key];
      StudentTally(rs + [r], sc,
        stats[key := StudentMonthlyStat(key, student.name, sc.classes[student.classId].name, Tick(NoCounts, r.status), 0)],
        keys + [key])
  {
    var key := r.studentId;
    var student := sc.students[key];
    var stats' := stats[key := StudentMonthlyStat(key, student.name, sc.classes[student.classId].name, Tick(NoCounts, r.status), 0)];
    GroupOrderSnoc(rs, r, sc, ByStudent);
    assert stats'[key] == PendingRow(rs + [r], sc, key) by {
      GroupCountsAbsent(rs, sc, ByStudent, key);
      GroupCountsSnoc(rs, r, sc, ByStudent, key);
    }
    forall k | k in stats && k != key ensures stats'[k] == PendingRow(rs + [r], sc, k) {
      GroupCountsSnoc(rs, r, sc, ByStudent, k);
    }
  }

  /** The tallied keys are stored, each once. */
  lemma StudentTallyKeys(rs: seq<HomeworkRecord>, sc: Scope, stats: map<int, StudentMonthlyStat>, keys: seq<int>)
    requires StudentTally(rs, sc, stats, keys)
    ensures forall t :: 0 <= t < |keys| ==> keys[t] in stats
    ensures forall s, t :: 0 <= s < t < |keys| ==> keys[s] != keys[t]
  {
    forall t | 0 <= t < |keys| ensures keys[t] in stats {
      assert keys[t] in keys;
    }
    assert keys == GroupOrder(rs, sc, ByStudent);
  }

  /** A row with its completion rate computed from its counters. */
  function WithRate(stat: StudentMonthlyStat): StudentMonthlyStat {
    stat.(completionRate := StudentRate(stat.counts))
  }

  /** Computing the rate of every tallied row gives the students' rows. */
  lemma StudentTallyRated(rs: seq<HomeworkRecord>, sc: Scope, pending: map<int, StudentMonthlyStat>, keys: seq<int>, stats: map<int, StudentMonthlyStat>)
    requires StudentTally(rs, sc, pending, keys)
    requires forall t :: 0 <= t < |keys| ==> keys[t] in pending && keys[t] in stats && stats[keys[t]] == WithRate(pending[keys[t]])
    ensures forall t :: 0 <= t < |keys| ==> keys[t] in stats && stats[keys[t]] == StudentRow(rs, sc, keys[t])
  {
    forall t | 0 <= t < |keys| ensures stats[keys[t]] == StudentRow(rs, sc, keys[t]) {
      assert keys[t] in keys;
    }
  }

  /** Once every in-range record is tallied and every rate computed, the rows in key order are the
      month's per-student rows in order of first appearance. */
  lemma StudentTallyRows(all: seq<HomeworkRecord>, sc: Scope, inRange: HomeworkRecord -> bool, stats: map<int, StudentMonthlyStat>, keys: seq<int>)
    requires forall r :: inRange(r) == InRange(r.date, sc.startDate, sc.endDate)
    requires keys == GroupOrder(Filter(all, inRange), sc, ByStudent)
    requires forall t :: 0 <= t < |keys| ==> keys[t] in stats && stats[keys[t]] == StudentRow(Filter(all, inRange), sc, keys[t])
    ensures InOrder(stats, keys) == StudentRowsFor(all, sc, GroupOrder(all, sc, ByStudent))
  {
    DropUncountedOrder(all, sc, ByStudent, inRange);
    forall t | 0 <= t < |keys| ensures stats[keys[t]] == StudentRow(all, sc, keys[t]) {
      DropUncountedCounts(all, sc, ByStudent, inRange, keys[t]);
    }
  }

  /** With one record per (student, date), the lookup of a record's own student and date finds that
      record. */
  lemma SavedIsFound(m: map<int, HomeworkRecord>, id: int, studentId: int, date: string)
    requires OneRecordPerDay(m)
    requires id in m && m[id].studentId == studentId && m[id].date == date
    ensures Find(Values(m), SameDay(studentId, date)) == Some(m[id])
  {
    FindInValues(m, SameDay(studentId, date));
    var r := Find(Values(m), SameDay(studentId, date));
    var k :| k in m && m[k] == r.value;
  }

  class MemoryStorageService {
    var classes: map<int, ClassGroup>
    var students: map<int, Student>
    var homeworkRecords: map<int, HomeworkRecord>
    var nextClassId: int
    var nextStudentId: int
    var nextRecordId: int

    /** The store's state as one value. */
    function Current(): State
      reads this
    {
      State(classes, students, homeworkRecords, nextClassId, nextStudentId, nextRecordId)
    }

    predicate Valid()
      reads this
    {
      WellFormed(Current())
    }

    /** A store that has loaded nothing. */
    constructor ()
      ensures Current() == Initial
      ensures Valid() && Linked(Current())
    {
      classes, students, homeworkRecords := map[], map[], map[];
      nextClassId, nextStudentId, nextRecordId := 1, 1, 1;
    }

    /** A store restored from a snapshot; a well-formed snapshot (one the store saved) restores a valid
        store, namely the one that saved it. */
    constructor Restore(snap: Snapshot)
      ensures Current() == Load(snap)
    {
      classes := Index(snap.classes, ClassKey);
      students := Index(snap.students, StudentKey);
      homeworkRecords := Index(snap.homeworkRecords, RecordKey);
      nextClassId := OrOne(snap.nextClassId);
      nextStudentId := OrOne(snap.nextStudentId);
      nextRecordId := OrOne(snap.nextRecordId);
    }

    /** Every class, in map order. */
    function GetClasses(): (r: seq<ClassGroup>)
      reads this
      ensures |r| == |classes|
      ensures forall c :: c in r <==> c in classes.Values
    {
      var r := Values(classes);
      assert forall c :: c in r <==> c in classes.Values by {
        forall c ensures c in r <==> c in classes.Values {
          ValuesListsMap(classes, c);
        }
      }
      r
    }

    /** Creates a class under the next class id and returns that id. */
    method CreateClass(name: string, description: Option<string>, now: string) returns (id: int)
      requires Valid()
      modifies this
      ensures Valid()
      ensures id == old(nextClassId) && id !in old(classes)
      ensures nextClassId == old(nextClassId) + 1
      ensures classes == old(classes)[id := ClassGroup(id, name, Some(OrEmpty(description)), now, now)]
      ensures students == old(students) && homeworkRecords == old(homeworkRecords)
      ensures nextStudentId == old(nextStudentId) && nextRecordId == old(nextRecordId)
      ensures Linked(old(Current())) ==> Linked(Current())
    {
      id := nextClassId;
      nextClassId := nextClassId + 1;
      classes := classes[id := ClassGroup(id, name, Some(OrEmpty(description)), now, now)];
    }

    /** Renames a class and replaces its description, or fails when there is no such class. */
    method UpdateClass(id: int, name: string, description: Option<string>, now: string) returns (r: Outcome)
      requires Valid()
      modifies this
      ensures Valid()
      ensures r == Ok <==> id in old(classes)
      ensures r != Ok ==> r == NotFound(ClassNotFound) && Current() == old(Current())
      ensures r == Ok ==> classes == old(classes)[id := old(classes)[id].(name := name, description := Some(OrEmpty(description)), updatedAt := now)]
      ensures students == old(students) && homeworkRecords == old(homeworkRecords)
      ensures nextClassId == old(nextClassId) && nextStudentId == old(nextStudentId) && nextRecordId == old(nextRecordId)
      ensures Linked(old(Current())) ==> Linked(Current())
    {
      if id !in classes {
        return NotFound(ClassNotFound);
      }
      var existing := classes[id];
      classes := classes[id := existing.(name := name, description := Some(OrEmpty(description)), updatedAt := now)];
      r := Ok;
    }

    /** Deletes a class, its students and their records; a missing class is not an error. */
    method DeleteClass(id: int)
      requires Valid()
      modifies this
      ensures Valid()
      ensures classes == old(classes) - {id}
      ensures students == old(students) - Members(old(students), id)
      ensures homeworkRecords == old(homeworkRecords) - RecordsOf(old(homeworkRecords), Members(old(students), id))
      ensures nextClassId == old(nextClassId) && nextStudentId == old(nextStudentId) && nextRecordId == old(nextRecordId)
      ensures Linked(old(Current())) ==> Linked(Current())
    {
      var removed := RemoveMembers(id);
      RemoveRecordsOf(removed);
      classes := classes - {id};
      ghost var before := old(Current());
      ghost var gone := Members(before.students, id);
      assert Current() == Without(before, {id}, gone, RecordsOf(before.homeworkRecords, gone));
      assert Valid() by {
        WithoutWellFormed(before, {id}, gone, RecordsOf(before.homeworkRecords, gone));
      }
      assert Linked(before) ==> Linked(Current()) by {
        if Linked(before) {
          DeleteClassLinked(before, id);
        }
      }
    }

    /** `gone.forEach(s => this.students.delete(s.id))`. */
    method RemoveStudents(gone: seq<Student>)
      modifies this
      ensures students == old(students) - IdSet(gone, StudentKey)
      ensures classes == old(classes) && homeworkRecords == old(homeworkRecords)
      ensures nextClassId == old(nextClassId) && nextStudentId == old(nextStudentId) && nextRecordId == old(nextRecordId)
    {
      var i := 0;
      while i < |gone|
        invariant 0 <= i <= |gone|
        invariant students == old(students) - IdSet(gone[..i], StudentKey)
        invariant classes == old(classes) && homeworkRecords == old(homeworkRecords)
        invariant nextClassId == old(nextClassId) && nextStudentId == old(nextStudentId) && nextRecordId == old(nextRecordId)
      {
        IdSetStep(gone, StudentKey, i);
        RemoveOneMore(old(students), IdSet(gone[..i], StudentKey), gone[i].id);
        students := students - {gone[i].id};
        i := i + 1;
      }
      assert gone[..i] == gone;
    }

    /** Deletes the students of a class and returns their ids: the student half of the class
        cascade. */
    method RemoveMembers(id: int) returns (removed: set<int>)
      requires forall k :: k in students ==> students[k].id == k
      modifies this
      ensures removed == Members(old(students), id)
      ensures students == old(students) - removed
      ensures classes == old(classes) && homeworkRecords == old(homeworkRecords)
      ensures nextClassId == old(nextClassId) && nextStudentId == old(nextStudentId) && nextRecordId == old(nextRecordId)
    {
      var studentsToDelete := Filter(Values(students), InClass(id));
      removed := IdSet(studentsToDelete, StudentKey);
      assert removed == Members(students, id) by {
        FilteredIds(students, StudentKey, InClass(id));
      }
      RemoveStudents(studentsToDelete);
    }

    /** Deletes the records of the given students: the record half of the class cascade. */
    method RemoveRecordsOf(studentIds: set<int>)
      requires forall k :: k in homeworkRecords ==> homeworkRecords[k].id == k
      modifies this
      ensures homeworkRecords == old(homeworkRecords) - RecordsOf(old(homeworkRecords), studentIds)
      ensures classes == old(classes) && students == old(students)
      ensures nextClassId == old(nextClassId) && nextStudentId == old(nextStudentId) && nextRecordId == old(nextRecordId)
    {
      var recordsToDelete := Filter(Values(homeworkRecords), OfAnyStudent(studentIds));
      assert IdSet(recordsToDelete, RecordKey) == RecordsOf(homeworkRecords, studentIds) by {
        FilteredIds(homeworkRecords, RecordKey, OfAnyStudent(studentIds));
      }
      RemoveRecords(recordsToDelete);
    }

    /** Deletes the records of one student: the record half of the student cascade. */
    method RemoveRecordsOfStudent(id: int)
      requires forall k :: k in homeworkRecords ==> homeworkRecords[k].id == k
      modifies this
      ensures homeworkRecords == old(homeworkRecords) - RecordsOf(old(homeworkRecords), {id})
      ensures classes == old(classes) && students == old(students)
      ensures nextClassId == old(nextClassId) && nextStudentId == old(nextStudentId) && nextRecordId == old(nextRecordId)
    {
      var recordsToDelete := Filter(Values(homeworkRecords), OfStudent(id));
      assert IdSet(recordsToDelete, RecordKey) == RecordsOf(homeworkRecords, {id}) by {
        FilteredIds(homeworkRecords, RecordKey, OfStudent(id));
      }
      RemoveRecords(recordsToDelete);
    }

    /** `gone.forEach(r => this.homeworkRecords.delete(r.id))`. */
    method RemoveRecords(gone: seq<HomeworkRecord>)
      modifies this
      ensures homeworkRecords == old(homeworkRecords) - IdSet(gone, RecordKey)
      ensures classes == old(classes) && students == old(students)
      ensures nextClassId == old(nextClassId) && nextStudentId == old(nextStudentId) && nextRecordId == old(nextRecordId)
    {
      var j := 0;
      while j < |gone|
        invariant 0 <= j <= |gone|
        invariant homeworkRecords == old(homeworkRecords) - IdSet(gone[..j], RecordKey)
        invariant classes == old(classes) && students == old(students)
        invariant nextClassId == old(nextClassId) && nextStudentId == old(nextStudentId) && nextRecordId == old(nextRecordId)
      {
        IdSetStep(gone, RecordKey, j);
        RemoveOneMore(old(homeworkRecords), IdSet(gone[..j], RecordKey), gone[j].id);
        homeworkRecords := homeworkRecords - {gone[j].id};
        j := j + 1;
      }
      assert gone[..j] == gone;
    }

    /** The students of one class, in map order. */
    function GetStudentsByClass(classId: int): (r: seq<Student>)
      reads this
      ensures forall s :: s in r <==> s in students.Values && s.classId == classId
      ensures Valid() ==> Distinct(r)
    {
      FilterValues(students, InClass(classId));
      assert Valid() ==> Distinct(Filter(Values(students), InClass(classId))) by {
        if Valid() {
          ValuesDistinct(students, StudentKey);
          FilterDistinct(Values(students), InClass(classId));
        }
      }
      Filter(Values(students), InClass(classId))
    }

    /** Creates a student under the next student id and returns that id. */
    method CreateStudent(draft: StudentDraft, now: string) returns (id: int)
      requires Valid()
      modifies this
      ensures Valid()
      ensures id == old(nextStudentId) && id !in old(students)
      ensures nextStudentId == old(nextStudentId) + 1
      ensures students == old(students)[id := Student(id, draft.classId, draft.name, draft.grade, draft.phone,
                                                      draft.parentPhone, draft.note, now, now)]
      ensures classes == old(classes) && homeworkRecords == old(homeworkRecords)
      ensures nextClassId == old(nextClassId) && nextRecordId == old(nextRecordId)
      ensures Linked(old(Current())) && draft.classId in classes ==> Linked(Current())
    {
      id := nextStudentId;
      nextStudentId := nextStudentId + 1;
      students := students[id := Student(id, draft.classId, draft.name, draft.grade, draft.phone,
                                         draft.parentPhone, draft.note, now, now)];
    }

    /** Replaces a student's class, name, grade, phones and note, or fails when there is no such
        student. */
    method UpdateStudent(update: StudentUpdate, now: string) returns (r: Outcome)
      requires Valid()
      modifies this
      ensures Valid()
      ensures r == Ok <==> update.id in old(students)
      ensures r != Ok ==> r == NotFound(StudentNotFound) && Current() == old(Current())
      ensures r == Ok ==>
        students == old(students)[update.id := old(students)[update.id].(
          name := update.name, classId := update.classId, grade := update.grade, phone := update.phone,
          parentPhone := update.parentPhone, note := update.note, updatedAt := now)]
      ensures classes == old(classes) && homeworkRecords == old(homeworkRecords)
      ensures nextClassId == old(nextClassId) && nextStudentId == old(nextStudentId) && nextRecordId == old(nextRecordId)
      ensures Linked(old(Current())) && update.classId in classes ==> Linked(Current())
    {
      if update.id !in students {
        return NotFound(StudentNotFound);
      }
      var existing := students[update.id];
      students := students[update.id := existing.(
        name := update.name, classId := update.classId, grade := update.grade, phone := update.phone,
        parentPhone := update.parentPhone, note := update.note, updatedAt := now)];
      r := Ok;
    }

    /** Deletes a student and that student's records; a missing student is not an error. */
    method DeleteStudent(id: int)
      requires Valid()
      modifies this
      ensures Valid()
      ensures students == old(students) - {id}
      ensures homeworkRecords == old(homeworkRecords) - RecordsOf(old(homeworkRecords), {id})
      ensures classes == old(classes)
      ensures nextClassId == old(nextClassId) && nextStudentId == old(nextStudentId) && nextRecordId == old(nextRecordId)
      ensures Linked(old(Current())) ==> Linked(Current())
    {
      RemoveRecordsOfStudent(id);
      students := students - {id};
      ghost var before := old(Current());
      assert Current() == Without(before, {}, {id}, RecordsOf(before.homeworkRecords, {id})) by {
        RemoveNothing(before.classes);
      }
      WithoutWellFormed(before, {}, {id}, RecordsOf(before.homeworkRecords, {id}));
      if Linked(before) {
        DeleteStudentLinked(before, id);
      }
    }

    /** A student's records, optionally bounded below and above (an absent or empty bound is no bound),
        latest date first; in a valid store, each once. */
    function GetHomeworkRecords(studentId: int, startDate: Option<string>, endDate: Option<string>): (r: seq<HomeworkRecord>)
      reads this
      ensures forall x :: x in r <==> x in homeworkRecords.Values && x.studentId == studentId && InBounds(x.date, startDate, endDate)
      ensures SortedBy(r, DateDesc)
      ensures Valid() ==> Distinct(r)
    {
      var records := BoundedRecords(homeworkRecords, studentId, startDate, endDate);
      DateDescOrder();
      SortBySorted(records, DateDesc);
      SortByMembers(records, DateDesc);
      assert Valid() ==> Distinct(SortBy(records, DateDesc)) by {
        if Valid() {
          PermutationDistinct(records, SortBy(records, DateDesc));
        }
      }
      SortBy(records, DateDesc)
    }

    /** Stores a record for a (student, date): overwrites the status and note of the record already
        there, keeping its id, or adds a new record under the next record id. Returns the record's id. */
    method SaveHomeworkRecord(draft: RecordDraft, now: string) returns (id: int)
      requires Valid()
      modifies this
      ensures Valid()
      ensures HasDay(old(homeworkRecords), draft.studentId, draft.date) ==>
        && id in old(homeworkRecords)
        && old(homeworkRecords)[id].studentId == draft.studentId && old(homeworkRecords)[id].date == draft.date
        && homeworkRecords == old(homeworkRecords)[id := old(homeworkRecords)[id].(status := draft.status, note := draft.note, updatedAt := now)]
        && nextRecordId == old(nextRecordId)
      ensures !HasDay(old(homeworkRecords), draft.studentId, draft.date) ==>
        && id == old(nextRecordId) && id !in old(homeworkRecords)
        && homeworkRecords == old(homeworkRecords)[id := HomeworkRecord(id, draft.studentId, draft.date, draft.status, draft.note, now, now)]
        && nextRecordId == old(nextRecordId) + 1
      ensures classes == old(classes) && students == old(students)
      ensures nextClassId == old(nextClassId) && nextStudentId == old(nextStudentId)
      ensures Linked(old(Current())) && draft.studentId in students ==> Linked(Current())
      ensures id in homeworkRecords && homeworkRecords[id].status == draft.status && homeworkRecords[id].note == draft.note
      ensures GetHomeworkRecord(draft.studentId, draft.date) == Some(homeworkRecords[id])
    {
      var existing := Find(Values(homeworkRecords), SameDay(draft.studentId, draft.date));
      if existing.Some? {
        var record := existing.value;
        assert record.id in homeworkRecords && homeworkRecords[record.id] == record && SameDay(draft.studentId, draft.date)(record) by {
          FindInValues(homeworkRecords, SameDay(draft.studentId, draft.date));
        }
        id := record.id;
        Overwrite(id, draft.status, draft.note, now);
      } else {
        assert !HasDay(homeworkRecords, draft.studentId, draft.date) by {
          FindInValues(homeworkRecords, SameDay(draft.studentId, draft.date));
        }
        id := Append(draft, now);
      }
    }

    /** Replaces the status and note of the record under `id`, stamping the update time. */
    method Overwrite(id: int, status: HomeworkStatus, note: Option<string>, now: string)
      requires Valid() && id in homeworkRecords
      modifies this
      ensures Current() == Overwritten(old(Current()), id, status, note, now)
      ensures Valid() && (Linked(old(Current())) ==> Linked(Current()))
      ensures GetHomeworkRecord(homeworkRecords[id].studentId, homeworkRecords[id].date) == Some(homeworkRecords[id])
    {
      var existing := homeworkRecords[id];
      homeworkRecords := homeworkRecords[id := existing.(status := status, note := note, updatedAt := now)];
      OverwrittenWellFormed(old(Current()), id, status, note, now);
      SavedIsFound(homeworkRecords, id, homeworkRecords[id].studentId, homeworkRecords[id].date);
    }

    /** Adds a record under the next record id and returns that id. */
    method Append(draft: RecordDraft, now: string) returns (id: int)
      requires Valid() && !HasDay(homeworkRecords, draft.studentId, draft.date)
      modifies this
      ensures id == old(nextRecordId)
      ensures Current() == Appended(old(Current()), draft.studentId, draft.date, draft.status, draft.note, now)
      ensures Valid() && (Linked(old(Current())) && draft.studentId in students ==> Linked(Current()))
      ensures GetHomeworkRecord(draft.studentId, draft.date) == Some(homeworkRecords[id])
    {
      id := nextRecordId;
      nextRecordId := nextRecordId + 1;
      homeworkRecords := homeworkRecords[id := HomeworkRecord(id, draft.studentId, draft.date, draft.status, draft.note, now, now)];
      assert Current() == Appended(old(Current()), draft.studentId, draft.date, draft.status, draft.note, now) by {
        assert Current() == old(Current()).(homeworkRecords := homeworkRecords, nextRecordId := nextRecordId);
      }
      AppendedWellFormed(old(Current()), draft.studentId, draft.date, draft.status, draft.note, now);
      SavedIsFound(homeworkRecords, id, draft.studentId, draft.date);
    }

    /** The record of a student on a date, or nothing when there is none. */
    function GetHomeworkRecord(studentId: int, date: string): (r: Option<HomeworkRecord>)
      reads this
      ensures r.None? <==> !HasDay(homeworkRecords, studentId, date)
      ensures r.Some? ==> r.value in homeworkRecords.Values && r.value.studentId == studentId && r.value.date == date
    {
      FindInValues(homeworkRecords, SameDay(studentId, date));
      Find(Values(homeworkRecords), SameDay(studentId, date))
    }

    /** The records on one date of the students of one class, by ascending student id; in a valid
        store, each once. */
    function GetHomeworkRecordsByClassAndDate(classId: int, date: string): (r: seq<HomeworkRecord>)
      reads this
      ensures forall x :: x in r <==>
        && x in homeworkRecords.Values && x.date == date
        && exists s :: s in students.Values && s.classId == classId && s.id == x.studentId
      ensures SortedBy(r, StudentIdLe)
      ensures Valid() ==> Distinct(r)
    {
      var studentsInClass := IdList(Filter(Values(students), InClass(classId)));
      var records := RecordsOnDateFor(homeworkRecords, date, studentsInClass);
      StudentIdOrder();
      SortBySorted(records, StudentIdLe);
      SortByMembers(records, StudentIdLe);
      ClassMemberIds(students, classId);
      assert Valid() ==> Distinct(SortBy(records, StudentIdLe)) by {
        if Valid() {
          PermutationDistinct(records, SortBy(records, StudentIdLe));
        }
      }
      SortBy(records, StudentIdLe)
    }

    /** What the statistics of one month look at: the store's students and classes and the dates from
        the month's `-01` to its `-31`. */
    function MonthScope(year: int, month: int): (sc: Scope)
      reads this
      ensures sc.students == students && sc.classes == classes
      ensures 1000 <= year <= 9999 && 1 <= month <= 12 ==> forall d :: InRange(d, sc.startDate, sc.endDate) <==>
        |d| >= 8 && d[..8] == MonthPrefix(year, month) && InRange(d[8..], "01", "31")
    {
      assert 1000 <= year <= 9999 && 1 <= month <= 12 ==> forall d :: InRange(d, MonthStart(year, month), MonthEnd(year, month)) <==>
        |d| >= 8 && d[..8] == MonthPrefix(year, month) && InRange(d[8..], "01", "31") by {
        if 1000 <= year <= 9999 && 1 <= month <= 12 {
          forall d ensures InRange(d, MonthStart(year, month), MonthEnd(year, month)) <==>
            |d| >= 8 && d[..8] == MonthPrefix(year, month) && InRange(d[8..], "01", "31")
          {
            MonthRangeSelectsMonth(d, year, month);
          }
        }
      }
      Scope(students, classes, MonthStart(year, month), MonthEnd(year, month))
    }

    /** The per-class counters of one month, one row per class in order of first appearance. */
    method GetMonthlyStats(year: int, month: int) returns (rows: seq<ClassMonthlyStat>)
      ensures rows == MonthlyStats(Values(homeworkRecords), MonthScope(year, month))
    {
      var startDate, endDate := MonthStart(year, month), MonthEnd(year, month);
      ghost var sc := Scope(students, classes, startDate, endDate);
      var records := Filter(Values(homeworkRecords), InDateRange(startDate, endDate));
      var stats, keys := TallyByClass(records, sc);
      ClassTallyRows(Values(homeworkRecords), sc, InDateRange(startDate, endDate), stats, keys);
      rows := InOrder(stats, keys);
    }

    /** The `forEach` of `getMonthlyStats`: counts the given in-range records by class. */
    method TallyByClass(records: seq<HomeworkRecord>, ghost sc: Scope) returns (stats: map<int, ClassMonthlyStat>, keys: seq<int>)
      requires sc.students == students && sc.classes == classes
      requires forall i :: 0 <= i < |records| ==> InRange(records[i].date, sc.startDate, sc.endDate)
      ensures ClassTally(records, sc, stats, keys)
    {
      stats, keys := map[], [];
      var i := 0;
      while i < |records|
        invariant 0 <= i <= |records|
        invariant ClassTally(records[..i], sc, stats, keys)
      {
        var record := records[i];
        assert records[..i + 1] == records[..i] + [record];
        if record.studentId in students && students[record.studentId].classId in classes {
          var student := students[record.studentId];
          var key := student.classId;
          ghost var before := stats;
          if key !in stats {
            ClassTallyNew(records[..i], record, sc, stats, keys);
            stats := stats[key := ClassMonthlyStat(key, classes[key].name, NoCounts)];
            keys := keys + [key];
          } else {
            ClassTallyOld(records[..i], record, sc, stats, keys);
          }
          var stat := stats[key];
          stats := stats[key := stat.(counts := Tick(stat.counts, record.status))];
          assert key !in before ==> stats == before[key := ClassMonthlyStat(key, classes[key].name, Tick(NoCounts, record.status))];
          assert key in before ==> stats == before[key := before[key].(counts := Tick(before[key].counts, record.status))];
        } else {
          ClassTallySkip(records[..i], record, sc, stats, keys);
        }
        i := i + 1;
      }
      assert records[..i] == records;
    }

    /** The per-student counters and completion rates of one month, lowest rate first. */
    method GetStudentStats(year: int, month: int) returns (rows: seq<StudentMonthlyStat>)
      requires forall k :: k in students ==> students[k].id == k
      ensures rows == StudentStats(Values(homeworkRecords), MonthScope(year, month))
    {
      var startDate, endDate := MonthStart(year, month), MonthEnd(year, month);
      ghost var sc := Scope(students, classes, startDate, endDate);
      var records := Filter(Values(homeworkRecords), InDateRange(startDate, endDate));
      var pending, keys := TallyByStudent(records, sc);
      StudentTallyKeys(records, sc, pending, keys);
      var stats := RateStudents(pending, keys);
      StudentTallyRated(records, sc, pending, keys, stats);
      StudentTallyRows(Values(homeworkRecords), sc, InDateRange(startDate, endDate), stats, keys);
      var unsorted := InOrder(stats, keys);
      rows := SortBy(unsorted, RateLe);
    }

    /** The `forEach` of `getStudentStats` that counts the given in-range records by student. */
    method TallyByStudent(records: seq<HomeworkRecord>, ghost sc: Scope) returns (stats: map<int, StudentMonthlyStat>, keys: seq<int>)
      requires sc.students == students && sc.classes == classes
      requires forall k :: k in students ==> students[k].id == k
      requires forall i :: 0 <= i < |records| ==> InRange(records[i].date, sc.startDate, sc.endDate)
      ensures StudentTally(records, sc, stats, keys)
    {
      stats, keys := map[], [];
      var i := 0;
      while i < |records|
        invariant 0 <= i <= |records|
        invariant StudentTally(records[..i], sc, stats, keys)
      {
        var record := records[i];
        assert records[..i + 1] == records[..i] + [record];
        if record.studentId in students && students[record.studentId].classId in classes {
          var student := students[record.studentId];
          var classInfo := classes[student.classId];
          var key := student.id;
          ghost var before := stats;
          if key !in stats {
            StudentTallyNew(records[..i], record, sc, stats, keys);
            stats := stats[key := StudentMonthlyStat(student.id, student.name, classInfo.name, NoCounts, 0)];
            keys := keys + [key];
          } else {
            StudentTallyOld(records[..i], record, sc, stats, keys);
          }
          var stat := stats[key];
          stats := stats[key := stat.(counts := Tick(stat.counts, record.status))];
          assert key !in before ==>
            stats == before[key := StudentMonthlyStat(key, student.name, classInfo.name, Tick(NoCounts, record.status), 0)];
          assert key in before ==> stats == before[key := before[key].(counts := Tick(before[key].counts, record.status))];
        } else {
          StudentTallySkip(records[..i], record, sc, stats, keys);
        }
        i := i + 1;
      }
      assert records[..i] == records;
    }

    /** The second `forEach` of `getStudentStats`: sets every row's completion rate from its counters. */
    method RateStudents(pending: map<int, StudentMonthlyStat>, keys: seq<int>) returns (stats: map<int, StudentMonthlyStat>)
      requires forall t :: 0 <= t < |keys| ==> keys[t] in pending
      requires forall s, t :: 0 <= s < t < |keys| ==> keys[s] != keys[t]
      ensures forall t :: 0 <= t < |keys| ==> keys[t] in stats && stats[keys[t]] == WithRate(pending[keys[t]])
    {
      stats := pending;
      var j := 0;
      while j < |keys|
        invariant 0 <= j <= |keys|
        invariant forall k :: k in stats <==> k in pending
        invariant forall t :: 0 <= t < |keys| ==> keys[t] in stats
        invariant forall t :: 0 <= t < j ==> stats[keys[t]] == WithRate(pending[keys[t]])
        invariant forall t :: j <= t < |keys| ==> stats[keys[t]] == pending[keys[t]]
      {
        var stat := stats[keys[j]];
        var rate := if stat.counts.total > 0
          then RoundHalfUp(200 * stat.counts.done + 100 * stat.counts.partial, stat.counts.total)
          else 0;
        stats := stats[keys[j] := stat.(completionRate := rate)];
        j := j + 1;
      }
    }
  }
}
