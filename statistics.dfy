/** The helpers of the statistics page: the class selection applied to the per-class and per-student
    rows, the done-only completion rate and the grand totals of the per-class rows. */
module Statistics {

  import opened Optional
  import opened Records
  import opened Seqs
  import opened Aggregation

  /** The page's class selection: nothing chosen yet (`null`), `'all'`, or one class id. */
  datatype ClassSelection = NoSelection | AllClasses | OneClass(classId: int)

  function OfClass(classId: int): ClassMonthlyStat -> bool {
    (row: ClassMonthlyStat) => row.classId == classId
  }

  /** The per-class rows the page shows: none before a class is chosen, all of them for `'all'`,
      and for one class the rows of that class, each as often as in the input, in input order. */
  function VisibleClassStats(selection: ClassSelection, stats: seq<ClassMonthlyStat>): (r: seq<ClassMonthlyStat>)
    ensures selection.NoSelection? ==> r == []
    ensures selection.AllClasses? ==> r == stats
    ensures selection.OneClass? ==>
      forall row :: multiset(r)[row] == if row.classId == selection.classId then multiset(stats)[row] else 0
    ensures SubsequenceOf(r, stats)
  {
    SubsequenceTrivial(stats);
    match selection
    case NoSelection => []
    case AllClasses => stats
    case OneClass(c) =>
      FilterSubsequence(stats, OfClass(c));
      assert forall row :: multiset(Filter(stats, OfClass(c)))[row] == if row.classId == c then multiset(stats)[row] else 0 by {
        forall row ensures multiset(Filter(stats, OfClass(c)))[row] == if row.classId == c then multiset(stats)[row] else 0 {
          FilterMultiplicity(stats, OfClass(c), row);
        }
      }
      Filter(stats, OfClass(c))
  }

  /** Filtering per-class rows built from distinct class ids by one class leaves that class's row, if
      it is listed, and nothing else. */
  lemma {:induction false} FilterClassRows(rs: seq<HomeworkRecord>, sc: Scope, order: seq<int>, c: int)
    requires forall k :: k in order ==> k in sc.classes
    requires forall i, j :: 0 <= i < j < |order| ==> order[i] != order[j]
    ensures c !in order ==> Filter(ClassRowsFor(rs, sc, order), OfClass(c)) == []
    ensures c in order ==> c in sc.classes && Filter(ClassRowsFor(rs, sc, order), OfClass(c)) == [ClassRow(rs, sc, c)]
    decreases |order|
  {
    if order != [] {
      var init, last := order[..|order| - 1], order[|order| - 1];
      assert ClassRowsFor(rs, sc, order) == ClassRowsFor(rs, sc, init) + [ClassRow(rs, sc, last)];
      assert forall k :: k in init ==> k in order;
      FilterClassRows(rs, sc, init, c);
      FilterAppend(ClassRowsFor(rs, sc, init), [ClassRow(rs, sc, last)], OfClass(c));
      assert Filter([ClassRow(rs, sc, last)], OfClass(c)) == if last == c then [ClassRow(rs, sc, last)] else [] by {
        assert [ClassRow(rs, sc, last)][..0] == [];
      }
      assert c == last ==> c !in init;
    }
  }

  /** With one class selected, the page shows exactly that class's row of the month when the class has
      counted records, and no row otherwise. */
  lemma OneClassOfMonth(rs: seq<HomeworkRecord>, sc: Scope, c: int)
    ensures !HasRecordIn(rs, sc, ByClass, c) ==> VisibleClassStats(OneClass(c), MonthlyStats(rs, sc)) == []
    ensures HasRecordIn(rs, sc, ByClass, c) ==>
      c in sc.classes && VisibleClassStats(OneClass(c), MonthlyStats(rs, sc)) == [ClassRow(rs, sc, c)]
  {
    var order := GroupOrder(rs, sc, ByClass);
    GroupOrderMembers(rs, sc, ByClass, c);
    FilterClassRows(rs, sc, order, c);
  }

  function HasId(id: int): Student -> bool {
    (s: Student) => s.id == id
  }

  /** `student && student.classId === selectedClass`, `student` being the first loaded student with the
      row's id. */
  predicate ShownInClass(students: seq<Student>, classId: int, row: StudentMonthlyStat) {
    var student := Find(students, HasId(row.studentId));
    student.Some? && student.value.classId == classId
  }

  function ShownIn(students: seq<Student>, classId: int): StudentMonthlyStat -> bool {
    (row: StudentMonthlyStat) => ShownInClass(students, classId, row)
  }

  /** The per-student rows the page shows: none before a class is chosen, all of them for `'all'`,
      and for one class the rows whose student the page has loaded in that class, each as often as in
      the input, in input order. */
  function VisibleStudentStats(selection: ClassSelection, students: seq<Student>, stats: seq<StudentMonthlyStat>)
    : (r: seq<StudentMonthlyStat>)
    ensures selection.NoSelection? ==> r == []
    ensures selection.AllClasses? ==> r == stats
    ensures selection.OneClass? ==> forall row ::
      multiset(r)[row] == if ShownInClass(students, selection.classId, row) then multiset(stats)[row] else 0
    ensures SubsequenceOf(r, stats)
  {
    SubsequenceTrivial(stats);
    match selection
    case NoSelection => []
    case AllClasses => stats
    case OneClass(c) =>
      FilterSubsequence(stats, ShownIn(students, c));
      assert forall row ::
        multiset(Filter(stats, ShownIn(students, c)))[row] == if ShownInClass(students, c, row) then multiset(stats)[row] else 0 by {
        forall row
          ensures multiset(Filter(stats, ShownIn(students, c)))[row] == if ShownInClass(students, c, row) then multiset(stats)[row] else 0
        {
          FilterMultiplicity(stats, ShownIn(students, c), row);
        }
      }
      Filter(stats, ShownIn(students, c))
  }

  /** A shown row's student is loaded and in the class; a row whose student is not loaded is dropped;
      and when the loaded students have distinct ids, a row is shown exactly when its student is loaded
      and in the class. */
  lemma ShownInClassMeans(students: seq<Student>, c: int, row: StudentMonthlyStat)
    ensures ShownInClass(students, c, row) ==> exists s :: s in students && s.id == row.studentId && s.classId == c
    ensures (forall s :: s in students ==> s.id != row.studentId) ==> !ShownInClass(students, c, row)
    ensures (forall i, j :: 0 <= i < j < |students| ==> students[i].id != students[j].id) ==>
      (ShownInClass(students, c, row) <==> exists s :: s in students && s.id == row.studentId && s.classId == c)
  {
    var found := Find(students, HasId(row.studentId));
    if found.Some? {
      var i :| 0 <= i < |students| && students[i] == found.value && HasId(row.studentId)(students[i]);
      assert students[i] in students;
      if forall i, j :: 0 <= i < j < |students| ==> students[i].id != students[j].id {
        forall s | s in students && s.id == row.studentId ensures s.classId == found.value.classId {
          var j :| 0 <= j < |students| && students[j] == s;
          assert i == j;
        }
      }
    } else {
      forall s | s in students ensures s.id != row.studentId {
        var j :| 0 <= j < |students| && students[j] == s;
        assert !HasId(row.studentId)(students[j]);
      }
    }
  }

  /** `getCompletionRate`: the done share of the total as a rounded percentage, partial records earning
      nothing; 0 without counters or without records. */
  function CompletionRate(stats: Option<Counts>): (r: int)
    ensures r >= 0
    ensures stats.None? || stats.value.total == 0 ==> r == 0
    ensures stats.Some? && stats.value.done <= stats.value.total ==> r <= 100
  {
    if stats.None? || stats.value.total == 0 then 0
    else
      RoundHalfUpNearest(200 * stats.value.done, stats.value.total);
      RoundedPercentAtMost100(200 * stats.value.done, stats.value.total);
      RoundHalfUp(200 * stats.value.done, stats.value.total)
  }

  /** With counters that count something, the rate is `done / total` as a percentage rounded to the
      nearest integer. */
  lemma CompletionRateRounds(c: Counts)
    requires c.total > 0
    ensures c.total * (2 * CompletionRate(Some(c)) - 1) <= 200 * c.done < c.total * (2 * CompletionRate(Some(c)) + 1)
  {
    RoundHalfUpNearest(200 * c.done, c.total);
  }

  /** Rounding to the nearest integer keeps order. */
  lemma RoundHalfUpMonotone(a2: nat, b2: nat, t: nat)
    requires t > 0 && a2 <= b2
    ensures RoundHalfUp(a2, t) <= RoundHalfUp(b2, t)
  {
    var qa, qb := RoundHalfUp(a2, t), RoundHalfUp(b2, t);
    RoundHalfUpNearest(a2, t);
    RoundHalfUpNearest(b2, t);
    assert t * (2 * qa - 1) < t * (2 * qb + 1);
    MulCancel(t, 2 * qa - 1, 2 * qb + 1);
  }

  /** A positive factor can be cancelled from a strict inequality. */
  lemma MulCancel(t: int, x: int, y: int)
    requires t > 0 && t * x < t * y
    ensures x < y
  {
    assert t * y - t * x == t * (y - x);
  }

  /** The page's rate gives no credit for partial records, so it never exceeds the per-student rate of
      the same counters, and the two agree when nothing is partial. */
  lemma CompletionRateNoPartialCredit(c: Counts)
    ensures CompletionRate(Some(c)) <= StudentRate(c)
    ensures c.partial == 0 ==> CompletionRate(Some(c)) == StudentRate(c)
  {
    if c.total > 0 {
      RoundHalfUpMonotone(200 * c.done, 200 * c.done + 100 * c.partial, c.total);
    }
  }

  /** Field-wise sum of two sets of counters. */
  function Add(a: Counts, b: Counts): Counts {
    Counts(a.total + b.total, a.done + b.done, a.partial + b.partial, a.notDone + b.notDone, a.absent + b.absent)
  }

  /** The `reduce` of `getTotalStats`: the rows' counters added up left to right, starting from zero.
      The summed total is the total of every row, and rows with consistent counters sum to consistent
      counters. */
  function SumCounts(rows: seq<ClassMonthlyStat>): (r: Counts)
    ensures r.total == SumTotals(rows)
    ensures (forall i :: 0 <= i < |rows| ==> Consistent(rows[i].counts)) ==> Consistent(r)
    decreases |rows|
  {
    if rows == [] then NoCounts
    else
      var init := rows[..|rows| - 1];
      assert forall i :: 0 <= i < |init| ==> init[i] == rows[i];
      Add(SumCounts(init), rows[|rows| - 1].counts)
  }

  /** `getTotalStats`: nothing for no rows, otherwise the field-wise sums of the rows' counters. */
  function TotalStats(rows: seq<ClassMonthlyStat>): (r: Option<Counts>)
    ensures r.None? <==> rows == []
  {
    if rows == [] then None else Some(SumCounts(rows))
  }

  lemma AddAssociative(x: Counts, y: Counts, z: Counts)
    ensures Add(Add(x, y), z) == Add(x, Add(y, z))
  {
  }

  /** Summing a concatenation adds the sums of its parts: the totals do not depend on how the rows are
      split. */
  lemma {:induction false} SumCountsAppend(a: seq<ClassMonthlyStat>, b: seq<ClassMonthlyStat>)
    ensures SumCounts(a + b) == Add(SumCounts(a), SumCounts(b))
    decreases |b|
  {
    if b == [] {
      assert a + b == a;
      var sa := SumCounts(a);
      assert Add(sa, NoCounts) == Counts(sa.total, sa.done, sa.partial, sa.notDone, sa.absent) == sa;
    } else {
      var init, last := b[..|b| - 1], b[|b| - 1];
      var ab := a + b;
      assert ab[..|ab| - 1] == a + init && ab[|ab| - 1] == last;
      assert SumCounts(ab) == Add(SumCounts(a + init), last.counts);
      assert SumCounts(b) == Add(SumCounts(init), last.counts);
      SumCountsAppend(a, init);
      AddAssociative(SumCounts(a), SumCounts(init), last.counts);
    }
  }

  /** For rows that each count something, there is a grand total exactly when the rows count anything. */
  lemma TotalStatsPresent(rows: seq<ClassMonthlyStat>)
    requires forall i :: 0 <= i < |rows| ==> rows[i].counts.total > 0
    ensures TotalStats(rows).None? <==> SumTotals(rows) == 0
  {
    assert rows != [] ==> SumTotals(rows) > 0 by {
      if rows != [] {
        assert rows[|rows| - 1].counts.total > 0;
      }
    }
  }

  /** The grand total sums the rows' totals and, for rows with consistent counters, is consistent. */
  lemma TotalStatsSums(rows: seq<ClassMonthlyStat>)
    requires forall i :: 0 <= i < |rows| ==> Consistent(rows[i].counts)
    ensures TotalStats(rows).Some? ==> TotalStats(rows).value.total == SumTotals(rows) && Consistent(TotalStats(rows).value)
  {
  }

  /** The page's grand total of a month counts every in-range record whose student and class exist,
      once; its counters are consistent; and there is no total exactly when there is no such record. */
  lemma TotalOfMonth(rs: seq<HomeworkRecord>, sc: Scope, counted: HomeworkRecord -> bool)
    requires forall r :: counted(r) == Counted(r, sc)
    ensures TotalStats(MonthlyStats(rs, sc)).None? <==> |Filter(rs, counted)| == 0
    ensures TotalStats(MonthlyStats(rs, sc)).Some? ==>
      && TotalStats(MonthlyStats(rs, sc)).value.total == |Filter(rs, counted)|
      && Consistent(TotalStats(MonthlyStats(rs, sc)).value)
  {
    var rows := MonthlyStats(rs, sc);
    assert forall i :: 0 <= i < |rows| ==> Consistent(rows[i].counts) && rows[i].counts.total > 0 by {
      MonthlyStatsRows(rs, sc);
    }
    TotalStatsPresent(rows);
    TotalStatsSums(rows);
    MonthlyStatsCountEveryRecord(rs, sc, counted);
  }
}
