/** The monthly statistics of the in-memory store, as reference definitions over the store's
    records: which records count, how they group by class or by student, what each group's
    counters hold and how a student's completion rate is rounded. */
module Aggregation {

  import opened Records
  import opened Text
  import opened Seqs
  import opened Sorting

  /** The five counters of one statistics row. */
  datatype Counts = Counts(total: nat, done: nat, partial: nat, notDone: nat, absent: nat)

  const NoCounts := Counts(0, 0, 0, 0, 0)

  /** The total is the sum of the four status counters. */
  predicate Consistent(c: Counts) {
    c.total == c.done + c.partial + c.notDone + c.absent
  }

  /** `stat.total++` followed by the increment of the counter for `s`. */
  function Tick(c: Counts, s: HomeworkStatus): (r: Counts)
    ensures r.total == c.total + 1
    ensures r.done == c.done + (if s == Done then 1 else 0)
    ensures r.partial == c.partial + (if s == Partial then 1 else 0)
    ensures r.notDone == c.notDone + (if s == NotDone then 1 else 0)
    ensures r.absent == c.absent + (if s == Absent then 1 else 0)
  {
    match s
    case Done => c.(total := c.total + 1, done := c.done + 1)
    case Partial => c.(total := c.total + 1, partial := c.partial + 1)
    case NotDone => c.(total := c.total + 1, notDone := c.notDone + 1)
    case Absent => c.(total := c.total + 1, absent := c.absent + 1)
  }

  /** A row of the per-class monthly statistics. */
  datatype ClassMonthlyStat = ClassMonthlyStat(classId: int, className: string, counts: Counts)

  /** A row of the per-student monthly statistics. */
  datatype StudentMonthlyStat = StudentMonthlyStat(
    studentId: int,
    studentName: string,
    className: string,
    counts: Counts,
    completionRate: int)

  /** What a statistics query looks at: the store's students and classes and the date range. */
  datatype Scope = Scope(
    students: map<int, Student>,
    classes: map<int, ClassGroup>,
    startDate: string,
    endDate: string)

  /** Rows are grouped by the record's class or by its student. */
  datatype Grouping = ByClass | ByStudent

  /** A record counts when its date is in the range and its student and that student's class exist. */
  predicate Counted(r: HomeworkRecord, sc: Scope) {
    && InRange(r.date, sc.startDate, sc.endDate)
    && r.studentId in sc.students
    && sc.students[r.studentId].classId in sc.classes
  }

  /** The group a counted record falls in. */
  function KeyOf(r: HomeworkRecord, sc: Scope, g: Grouping): int
    requires r.studentId in sc.students
  {
    match g
    case ByClass => sc.students[r.studentId].classId
    case ByStudent => r.studentId
  }

  predicate Contributes(r: HomeworkRecord, sc: Scope, g: Grouping, key: int) {
    Counted(r, sc) && KeyOf(r, sc, g) == key
  }

  /** A key that names an existing group: a class, or a student whose class exists. */
  predicate KnownKey(key: int, sc: Scope, g: Grouping) {
    match g
    case ByClass => key in sc.classes
    case ByStudent => key in sc.students && sc.students[key].classId in sc.classes
  }

  /** The group keys of the counted records, each once, in order of first appearance. */
  function GroupOrder(rs: seq<HomeworkRecord>, sc: Scope, g: Grouping): (order: seq<int>)
    ensures forall i, j :: 0 <= i < j < |order| ==> order[i] != order[j]
    ensures forall k :: k in order ==> KnownKey(k, sc, g)
    decreases |rs|
  {
    if rs == [] then []
    else
      var order, last := GroupOrder(rs[..|rs| - 1], sc, g), rs[|rs| - 1];
      if Counted(last, sc) && KeyOf(last, sc, g) !in order then order + [KeyOf(last, sc, g)] else order
  }

  /** The counters of one group. */
  function GroupCounts(rs: seq<HomeworkRecord>, sc: Scope, g: Grouping, key: int): (c: Counts)
    decreases |rs|
  {
    if rs == [] then NoCounts
    else
      var c, last := GroupCounts(rs[..|rs| - 1], sc, g, key), rs[|rs| - 1];
      if Contributes(last, sc, g, key) then Tick(c, last.status) else c
  }

  /** A group's total is the sum of its four status counters. */
  lemma {:induction false} GroupCountsConsistent(rs: seq<HomeworkRecord>, sc: Scope, g: Grouping, key: int)
    ensures Consistent(GroupCounts(rs, sc, g, key))
    decreases |rs|
  {
    if rs != [] {
      GroupCountsConsistent(rs[..|rs| - 1], sc, g, key);
    }
  }

  /** Some record of `rs` is counted in the group `key`. */
  predicate HasRecordIn(rs: seq<HomeworkRecord>, sc: Scope, g: Grouping, key: int) {
    exists i :: 0 <= i < |rs| && Contributes(rs[i], sc, g, key)
  }

  /** A key has a group exactly when some counted record falls in it. */
  lemma {:induction false} GroupOrderMembers(rs: seq<HomeworkRecord>, sc: Scope, g: Grouping, key: int)
    ensures key in GroupOrder(rs, sc, g) <==> HasRecordIn(rs, sc, g, key)
    decreases |rs|
  {
    if rs != [] {
      var init := rs[..|rs| - 1];
      GroupOrderMembers(init, sc, g, key);
      if exists i :: 0 <= i < |rs| && Contributes(rs[i], sc, g, key) {
        var i :| 0 <= i < |rs| && Contributes(rs[i], sc, g, key);
        if i < |init| {
          assert init[i] == rs[i];
        }
      }
      if exists i :: 0 <= i < |init| && Contributes(init[i], sc, g, key) {
        var i :| 0 <= i < |init| && Contributes(init[i], sc, g, key);
        assert rs[i] == init[i];
      }
    }
  }

  /** The counter a status is tallied in. */
  function CounterFor(c: Counts, s: HomeworkStatus): nat {
    match s
    case Done => c.done
    case Partial => c.partial
    case NotDone => c.notDone
    case Absent => c.absent
  }

  /** The total of a group counts the records that fall in it. */
  lemma {:induction false} GroupTotalCounts(rs: seq<HomeworkRecord>, sc: Scope, g: Grouping, key: int, inGroup: HomeworkRecord -> bool)
    requires forall r :: inGroup(r) == Contributes(r, sc, g, key)
    ensures GroupCounts(rs, sc, g, key).total == |Filter(rs, inGroup)|
    decreases |rs|
  {
    if rs != [] {
      GroupTotalCounts(rs[..|rs| - 1], sc, g, key, inGroup);
    }
  }

  /** The counter for a status counts the records of the group that have that status. */
  lemma {:induction false} GroupStatusCounts(rs: seq<HomeworkRecord>, sc: Scope, g: Grouping, key: int, s: HomeworkStatus, withStatus: HomeworkRecord -> bool)
    requires forall r :: withStatus(r) == (Contributes(r, sc, g, key) && r.status == s)
    ensures CounterFor(GroupCounts(rs, sc, g, key), s) == |Filter(rs, withStatus)|
    decreases |rs|
  {
    if rs != [] {
      GroupStatusCounts(rs[..|rs| - 1], sc, g, key, s, withStatus);
    }
  }

  /** A key without a group has all-zero counters. */
  lemma {:induction false} GroupCountsAbsent(rs: seq<HomeworkRecord>, sc: Scope, g: Grouping, key: int)
    requires key !in GroupOrder(rs, sc, g)
    ensures GroupCounts(rs, sc, g, key) == NoCounts
    decreases |rs|
  {
    if rs != [] {
      var init, last := rs[..|rs| - 1], rs[|rs| - 1];
      assert key !in GroupOrder(init, sc, g);
      GroupCountsAbsent(init, sc, g, key);
    }
  }

  /** A group that exists has at least one record. */
  lemma {:induction false} GroupCountsPositive(rs: seq<HomeworkRecord>, sc: Scope, g: Grouping, key: int)
    requires key in GroupOrder(rs, sc, g)
    ensures GroupCounts(rs, sc, g, key).total > 0
    decreases |rs|
  {
    var init, last := rs[..|rs| - 1], rs[|rs| - 1];
    if key in GroupOrder(init, sc, g) {
      GroupCountsPositive(init, sc, g, key);
    }
  }

  /** Records the loop never sees (outside the date range) do not change the groups. */
  lemma {:induction false} DropUncountedOrder(rs: seq<HomeworkRecord>, sc: Scope, g: Grouping, keep: HomeworkRecord -> bool)
    requires forall r :: Counted(r, sc) ==> keep(r)
    ensures GroupOrder(Filter(rs, keep), sc, g) == GroupOrder(rs, sc, g)
    decreases |rs|
  {
    if rs != [] {
      var init, last := rs[..|rs| - 1], rs[|rs| - 1];
      DropUncountedOrder(init, sc, g, keep);
      if keep(last) {
        var f := Filter(init, keep) + [last];
        assert Filter(rs, keep) == f;
        assert f[..|f| - 1] == Filter(init, keep) && f[|f| - 1] == last;
      } else {
        assert Filter(rs, keep) == Filter(init, keep);
      }
    }
  }

  /** Records the loop never sees (outside the date range) do not change any group's counters. */
  lemma {:induction false} DropUncountedCounts(rs: seq<HomeworkRecord>, sc: Scope, g: Grouping, keep: HomeworkRecord -> bool, key: int)
    requires forall r :: Counted(r, sc) ==> keep(r)
    ensures GroupCounts(Filter(rs, keep), sc, g, key) == GroupCounts(rs, sc, g, key)
    decreases |rs|
  {
    if rs != [] {
      var init, last := rs[..|rs| - 1], rs[|rs| - 1];
      DropUncountedCounts(init, sc, g, keep, key);
      var before := GroupCounts(init, sc, g, key);
      var after := if Contributes(last, sc, g, key) then Tick(before, last.status) else before;
      assert GroupCounts(rs, sc, g, key) == after;
      if keep(last) {
        var f := Filter(init, keep) + [last];
        assert Filter(rs, keep) == f;
        assert f[..|f| - 1] == Filter(init, keep) && f[|f| - 1] == last;
        assert GroupCounts(f, sc, g, key) == after;
      } else {
        assert !Contributes(last, sc, g, key);
        assert Filter(rs, keep) == Filter(init, keep);
      }
    }
  }

  /** `Math.round(a2 / (2 * t))` for a non-negative numerator: the nearest integer, halves rounded up. */
  function RoundHalfUp(a2: nat, t: nat): int
    requires t > 0
  {
    (a2 + t) / (2 * t)
  }

  /** The rounded quotient is the one integer whose half-open interval around it holds the quotient. */
  lemma RoundHalfUpNearest(a2: nat, t: nat)
    requires t > 0
    ensures t * (2 * RoundHalfUp(a2, t) - 1) <= a2 < t * (2 * RoundHalfUp(a2, t) + 1)
    ensures RoundHalfUp(a2, t) >= 0
  {
    var q := RoundHalfUp(a2, t);
    var rem := (a2 + t) % (2 * t);
    assert a2 + t == 2 * t * q + rem && 0 <= rem < 2 * t;
    assert t * (2 * q - 1) == 2 * t * q - t;
    assert t * (2 * q + 1) == 2 * t * q + t;
  }

  /** A rounded share of at most the whole is at most 100 percent. */
  lemma RoundedPercentAtMost100(a2: nat, t: nat)
    requires t > 0
    ensures a2 <= 200 * t ==> RoundHalfUp(a2, t) <= 100
  {
    var q := RoundHalfUp(a2, t);
    RoundHalfUpNearest(a2, t);
    if q > 100 {
      assert t * (2 * q - 1) >= t * 201;
    }
  }

  /** A student's completion rate: `done` counts fully and `partial` half, as a rounded percentage
      of the total; 0 without records. */
  function StudentRate(c: Counts): (r: int)
    ensures r >= 0
    ensures c.total == 0 ==> r == 0
    ensures Consistent(c) ==> r <= 100
  {
    if c.total > 0 then
      RoundHalfUpNearest(200 * c.done + 100 * c.partial, c.total);
      RoundedPercentAtMost100(200 * c.done + 100 * c.partial, c.total);
      RoundHalfUp(200 * c.done + 100 * c.partial, c.total)
    else 0
  }

  /** With records, the rate is `(done + partial / 2) / total` as a percentage rounded to the nearest
      integer. */
  lemma StudentRateRounds(c: Counts)
    requires c.total > 0
    ensures c.total * (2 * StudentRate(c) - 1) <= 200 * c.done + 100 * c.partial < c.total * (2 * StudentRate(c) + 1)
  {
    RoundHalfUpNearest(200 * c.done + 100 * c.partial, c.total);
  }

  /** A class's row: its id, its name and the counters of its records. */
  function ClassRow(rs: seq<HomeworkRecord>, sc: Scope, key: int): ClassMonthlyStat
    requires key in sc.classes
  {
    ClassMonthlyStat(key, sc.classes[key].name, GroupCounts(rs, sc, ByClass, key))
  }

  function ClassRowsFor(rs: seq<HomeworkRecord>, sc: Scope, order: seq<int>): seq<ClassMonthlyStat>
    requires forall k :: k in order ==> k in sc.classes
  {
    seq(|order|, i requires 0 <= i < |order| => ClassRow(rs, sc, order[i]))
  }

  /** The per-class statistics: one row per class with counted records, in order of first appearance. */
  function MonthlyStats(rs: seq<HomeworkRecord>, sc: Scope): (r: seq<ClassMonthlyStat>)
    ensures forall i :: 0 <= i < |r| ==> r[i].classId in sc.classes
    ensures forall i, j :: 0 <= i < j < |r| ==> r[i].classId != r[j].classId
  {
    ClassRowsFor(rs, sc, GroupOrder(rs, sc, ByClass))
  }

  /** A student's row: id, name, class name, counters and completion rate. */
  function StudentRow(rs: seq<HomeworkRecord>, sc: Scope, key: int): StudentMonthlyStat
    requires KnownKey(key, sc, ByStudent)
  {
    var counts := GroupCounts(rs, sc, ByStudent, key);
    var student := sc.students[key];
    StudentMonthlyStat(key, student.name, sc.classes[student.classId].name, counts, StudentRate(counts))
  }

  function StudentRowsFor(rs: seq<HomeworkRecord>, sc: Scope, order: seq<int>): seq<StudentMonthlyStat>
    requires forall k :: k in order ==> KnownKey(k, sc, ByStudent)
  {
    seq(|order|, i requires 0 <= i < |order| => StudentRow(rs, sc, order[i]))
  }

  /** The comparator `(a, b) => a.completionRate - b.completionRate`. */
  predicate RateLe(a: StudentMonthlyStat, b: StudentMonthlyStat) {
    a.completionRate <= b.completionRate
  }

  /** The per-student statistics: one row per student with counted records, ascending by completion rate,
      students with equal rates in order of first appearance. */
  function StudentStats(rs: seq<HomeworkRecord>, sc: Scope): (r: seq<StudentMonthlyStat>)
    ensures SortedBy(r, RateLe)
    ensures |r| == |GroupOrder(rs, sc, ByStudent)|
  {
    var rows := StudentRowsFor(rs, sc, GroupOrder(rs, sc, ByStudent));
    SortBySorted(rows, RateLe);
    assert |multiset(SortBy(rows, RateLe))| == |multiset(rows)|;
    SortBy(rows, RateLe)
  }

  predicate HasClassRow(rows: seq<ClassMonthlyStat>, c: int) {
    exists i :: 0 <= i < |rows| && rows[i].classId == c
  }

  predicate HasStudentRow(rows: seq<StudentMonthlyStat>, s: int) {
    exists i :: 0 <= i < |rows| && rows[i].studentId == s
  }

  /** Every per-class row names an existing class, carries its name, has consistent and non-zero counters,
      and the rows are exactly the classes that have counted records, each once. */
  lemma MonthlyStatsRows(rs: seq<HomeworkRecord>, sc: Scope)
    ensures forall i :: 0 <= i < |MonthlyStats(rs, sc)| ==>
      var row := MonthlyStats(rs, sc)[i];
      && row.classId in sc.classes
      && row.className == sc.classes[row.classId].name
      && Consistent(row.counts)
      && row.counts.total > 0
    ensures forall c :: HasClassRow(MonthlyStats(rs, sc), c) <==> HasRecordIn(rs, sc, ByClass, c)
  {
    var order := GroupOrder(rs, sc, ByClass);
    var rows := MonthlyStats(rs, sc);
    forall i | 0 <= i < |rows|
      ensures rows[i].classId in sc.classes && rows[i].className == sc.classes[rows[i].classId].name
      ensures Consistent(rows[i].counts) && rows[i].counts.total > 0
    {
      assert order[i] in order;
      assert rows[i] == ClassRow(rs, sc, order[i]);
      GroupCountsPositive(rs, sc, ByClass, order[i]);
      GroupCountsConsistent(rs, sc, ByClass, order[i]);
    }
    forall c ensures HasClassRow(rows, c) <==> HasRecordIn(rs, sc, ByClass, c) {
      GroupOrderMembers(rs, sc, ByClass, c);
      if c in order {
        var i :| 0 <= i < |order| && order[i] == c;
        assert rows[i].classId == c;
      }
    }
  }

  /** A row of the per-student statistics is a row of the unsorted per-student rows. */
  lemma StudentStatsRowOf(rs: seq<HomeworkRecord>, sc: Scope, row: StudentMonthlyStat) returns (i: nat)
    requires row in StudentStats(rs, sc)
    ensures i < |GroupOrder(rs, sc, ByStudent)|
    ensures row == StudentRow(rs, sc, GroupOrder(rs, sc, ByStudent)[i])
  {
    var order := GroupOrder(rs, sc, ByStudent);
    var rows := StudentRowsFor(rs, sc, order);
    assert row in multiset(rows);
    i :| 0 <= i < |rows| && rows[i] == row;
  }

  /** Every per-student row names an existing student of an existing class, carries both names, and has
      consistent and non-zero counters and a rate in 0..100; there is one row per student with counted
      records. */
  lemma StudentStatsRows(rs: seq<HomeworkRecord>, sc: Scope)
    ensures forall row :: row in StudentStats(rs, sc) ==>
      && KnownKey(row.studentId, sc, ByStudent)
      && row.studentName == sc.students[row.studentId].name
      && row.className == sc.classes[sc.students[row.studentId].classId].name
      && Consistent(row.counts)
      && row.counts.total > 0
      && row.completionRate == StudentRate(row.counts)
      && 0 <= row.completionRate <= 100
  {
    var order := GroupOrder(rs, sc, ByStudent);
    var sorted := StudentStats(rs, sc);
    forall row | row in sorted
      ensures && KnownKey(row.studentId, sc, ByStudent)
              && row.studentName == sc.students[row.studentId].name
              && row.className == sc.classes[sc.students[row.studentId].classId].name
              && Consistent(row.counts)
              && row.counts.total > 0
              && row.completionRate == StudentRate(row.counts)
              && 0 <= row.completionRate <= 100
    {
      var i := StudentStatsRowOf(rs, sc, row);
      assert order[i] in order;
      GroupCountsPositive(rs, sc, ByStudent, order[i]);
      GroupCountsConsistent(rs, sc, ByStudent, order[i]);
    }
  }

  /** The per-student rows are exactly the students that have counted records in the range. */
  lemma StudentStatsStudents(rs: seq<HomeworkRecord>, sc: Scope)
    ensures forall s :: HasStudentRow(StudentStats(rs, sc), s) <==> HasRecordIn(rs, sc, ByStudent, s)
  {
    var order := GroupOrder(rs, sc, ByStudent);
    var rows := StudentRowsFor(rs, sc, order);
    var sorted := StudentStats(rs, sc);
    forall s ensures HasStudentRow(sorted, s) <==> HasRecordIn(rs, sc, ByStudent, s) {
      GroupOrderMembers(rs, sc, ByStudent, s);
      if s in order {
        var i :| 0 <= i < |order| && order[i] == s;
        assert rows[i] in multiset(sorted);
      }
      if HasStudentRow(sorted, s) {
        var row :| row in sorted && row.studentId == s;
        var i := StudentStatsRowOf(rs, sc, row);
      }
    }
  }

  /** The per-student rows ascend by completion rate, and students with equal rates keep their order of
      first appearance. */
  lemma StudentStatsOrder(rs: seq<HomeworkRecord>, sc: Scope)
    ensures forall row :: Ties(StudentStats(rs, sc), row, RateLe) == Ties(StudentRowsFor(rs, sc, GroupOrder(rs, sc, ByStudent)), row, RateLe)
  {
    var rows := StudentRowsFor(rs, sc, GroupOrder(rs, sc, ByStudent));
    forall row ensures Ties(StudentStats(rs, sc), row, RateLe) == Ties(rows, row, RateLe) {
      SortByStable(rows, row, RateLe);
    }
  }

  /** The per-class rows together count every counted record exactly once. */
  function SumTotals(rows: seq<ClassMonthlyStat>): nat {
    if rows == [] then 0 else SumTotals(rows[..|rows| - 1]) + rows[|rows| - 1].counts.total
  }

  function GroupSum(rs: seq<HomeworkRecord>, sc: Scope, g: Grouping, order: seq<int>): nat {
    if order == [] then 0 else GroupSum(rs, sc, g, order[..|order| - 1]) + GroupCounts(rs, sc, g, order[|order| - 1]).total
  }

  lemma {:induction false} GroupSumStep(rs: seq<HomeworkRecord>, r: HomeworkRecord, sc: Scope, g: Grouping, order: seq<int>)
    requires forall i, j :: 0 <= i < j < |order| ==> order[i] != order[j]
    ensures GroupSum(rs + [r], sc, g, order)
         == GroupSum(rs, sc, g, order) + (if Counted(r, sc) && KeyOf(r, sc, g) in order then 1 else 0)
    decreases |order|
  {
    if order != [] {
      var init, k := order[..|order| - 1], order[|order| - 1];
      GroupSumStep(rs, r, sc, g, init);
      assert (rs + [r])[..|rs + [r]| - 1] == rs;
      assert order == init + [k];
    }
  }

  lemma {:induction false} GroupSumCountsAll(rs: seq<HomeworkRecord>, sc: Scope, g: Grouping, counted: HomeworkRecord -> bool)
    requires forall r :: counted(r) == Counted(r, sc)
    ensures GroupSum(rs, sc, g, GroupOrder(rs, sc, g)) == |Filter(rs, counted)|
    decreases |rs|
  {
    if rs != [] {
      var init, last := rs[..|rs| - 1], rs[|rs| - 1];
      assert rs == init + [last];
      var order := GroupOrder(init, sc, g);
      GroupSumCountsAll(init, sc, g, counted);
      GroupSumStep(init, last, sc, g, order);
      GroupOrderSnoc(init, last, sc, g);
      assert |Filter(rs, counted)| == |Filter(init, counted)| + (if counted(last) then 1 else 0);
      if Counted(last, sc) && KeyOf(last, sc, g) !in order {
        GroupSumNewKey(init, last, sc, g);
      }
    }
  }

  lemma GroupOrderSnoc(init: seq<HomeworkRecord>, last: HomeworkRecord, sc: Scope, g: Grouping)
    ensures GroupOrder(init + [last], sc, g)
         == if Counted(last, sc) && KeyOf(last, sc, g) !in GroupOrder(init, sc, g)
            then GroupOrder(init, sc, g) + [KeyOf(last, sc, g)] else GroupOrder(init, sc, g)
  {
    var rs := init + [last];
    assert rs[..|rs| - 1] == init && rs[|rs| - 1] == last;
  }

  /** A record opening a new group adds its group, with a total of one, to the sum. */
  lemma GroupSumNewKey(init: seq<HomeworkRecord>, last: HomeworkRecord, sc: Scope, g: Grouping)
    requires Counted(last, sc) && KeyOf(last, sc, g) !in GroupOrder(init, sc, g)
    ensures GroupSum(init + [last], sc, g, GroupOrder(init, sc, g) + [KeyOf(last, sc, g)])
         == GroupSum(init + [last], sc, g, GroupOrder(init, sc, g)) + 1
  {
    GroupCountsAbsent(init, sc, g, KeyOf(last, sc, g));
    NewGroupCounts(init, last, sc, g);
    GroupSumAppend(init + [last], sc, g, GroupOrder(init, sc, g), KeyOf(last, sc, g));
  }

  /** A group whose only record is the last one has a total of one. */
  lemma NewGroupCounts(init: seq<HomeworkRecord>, last: HomeworkRecord, sc: Scope, g: Grouping)
    requires Counted(last, sc)
    requires GroupCounts(init, sc, g, KeyOf(last, sc, g)) == NoCounts
    ensures GroupCounts(init + [last], sc, g, KeyOf(last, sc, g)).total == 1
  {
    GroupCountsSnoc(init, last, sc, g, KeyOf(last, sc, g));
    FirstTick(last.status);
  }

  /** Appending one record ticks its group's counters and leaves every other group's alone. */
  lemma GroupCountsSnoc(init: seq<HomeworkRecord>, last: HomeworkRecord, sc: Scope, g: Grouping, key: int)
    ensures GroupCounts(init + [last], sc, g, key)
         == if Contributes(last, sc, g, key) then Tick(GroupCounts(init, sc, g, key), last.status)
            else GroupCounts(init, sc, g, key)
  {
    var rs := init + [last];
    assert rs[..|rs| - 1] == init && rs[|rs| - 1] == last;
  }

  lemma FirstTick(s: HomeworkStatus)
    ensures Tick(NoCounts, s).total == 1
  {
  }

  lemma GroupSumAppend(rs: seq<HomeworkRecord>, sc: Scope, g: Grouping, order: seq<int>, k: int)
    ensures GroupSum(rs, sc, g, order + [k]) == GroupSum(rs, sc, g, order) + GroupCounts(rs, sc, g, k).total
  {
    var order' := order + [k];
    assert order'[..|order'| - 1] == order && order'[|order'| - 1] == k;
  }

  lemma {:induction false} ClassRowsSum(rs: seq<HomeworkRecord>, sc: Scope, order: seq<int>)
    requires forall k :: k in order ==> k in sc.classes
    ensures SumTotals(ClassRowsFor(rs, sc, order)) == GroupSum(rs, sc, ByClass, order)
    decreases |order|
  {
    if order != [] {
      var init := order[..|order| - 1];
      ClassRowsSum(rs, sc, init);
      assert ClassRowsFor(rs, sc, order)[..|order| - 1] == ClassRowsFor(rs, sc, init);
    }
  }

  /** The per-class rows together count every counted record exactly once. */
  lemma MonthlyStatsCountEveryRecord(rs: seq<HomeworkRecord>, sc: Scope, counted: HomeworkRecord -> bool)
    requires forall r :: counted(r) == Counted(r, sc)
    ensures SumTotals(MonthlyStats(rs, sc)) == |Filter(rs, counted)|
  {
    ClassRowsSum(rs, sc, GroupOrder(rs, sc, ByClass));
    GroupSumCountsAll(rs, sc, ByClass, counted);
  }
}
