/**
 * The statistics a listing carries: per-status counts, the list length and
 * the average GPA rounded to two decimal places. They are recomputed from
 * the fetched list on every call and never stored.
 */
module Statistics {
  import opened Students

  datatype Statistics = Statistics(active: nat, graduated: nat, suspended: nat, total: nat, averageGpa: real)

  /** How many students of the list have exactly this status. */
  function CountStatus(list: seq<Student>, status: string): (n: nat)
    ensures n <= |list|
    ensures n == 0 <==> forall i :: 0 <= i < |list| ==> list[i].status != status
    ensures n == |list| <==> forall i :: 0 <= i < |list| ==> list[i].status == status
  {
    if list == [] then 0
    else (if list[0].status == status then 1 else 0) + CountStatus(list[1..], status)
  }

  /** The sum of the GPAs (over reals, equal to `reduce`'s left-to-right sum). With every GPA in [0.0, 4.0], it lies between 0 and 4 per student. */
  function SumGpa(list: seq<Student>): (sum: real)
    ensures (forall i :: 0 <= i < |list| ==> 0.0 <= list[i].gpa <= 4.0) ==> 0.0 <= sum <= 4.0 * |list| as real
  {
    if list == [] then 0.0 else list[0].gpa + SumGpa(list[1..])
  }

  /** The four statuses are four different strings (they differ in their first letter). */
  lemma StatusesDistinct()
    ensures Active != Graduated && Active != Suspended && Active != Withdrawn
    ensures Graduated != Suspended && Graduated != Withdrawn && Suspended != Withdrawn
  {
    assert Active[0] == 'a' && Graduated[0] == 'g' && Suspended[0] == 's' && Withdrawn[0] == 'w';
  }

  /**
   * `parseFloat(x.toFixed(2))`: the multiple of 0.01 nearest to `x`, a tie
   * going away from zero (`toFixed` rounds the magnitude and keeps the sign).
   */
  function Round2(x: real): (r: real)
    ensures -0.005 <= r - x <= 0.005
    ensures (r * 100.0).Floor as real == r * 100.0
    ensures x >= 0.0 ==> r >= 0.0
  {
    var n := if x < 0.0 then -(-x * 100.0 + 0.5).Floor else (x * 100.0 + 0.5).Floor;
    assert (n as real).Floor == n;
    n as real / 100.0
  }

  /** The average GPA of `getAllStudents`: 0 for an empty list, the rounded mean otherwise. */
  function AverageGpa(list: seq<Student>): (avg: real)
    ensures list == [] ==> avg == 0.0
    ensures list != [] ==> -0.005 <= avg - SumGpa(list) / |list| as real <= 0.005
    ensures (avg * 100.0).Floor as real == avg * 100.0
  {
    if |list| > 0 then Round2(SumGpa(list) / |list| as real) else 0.0
  }

  /** The statistics block of a listing. */
  function ComputeStatistics(list: seq<Student>): (st: Statistics)
    ensures st.total == |list|
    ensures st.active + st.graduated + st.suspended + CountStatus(list, Withdrawn) <= st.total
    ensures list == [] ==> st == Statistics(0, 0, 0, 0, 0.0)
  {
    CountsBounded(list);
    Statistics(CountStatus(list, Active), CountStatus(list, Graduated), CountStatus(list, Suspended),
               |list|, AverageGpa(list))
  }

  /** The four status counts never exceed the list length, however the statuses look. */
  lemma {:induction false} CountsBounded(list: seq<Student>)
    ensures CountStatus(list, Active) + CountStatus(list, Graduated) + CountStatus(list, Suspended)
            + CountStatus(list, Withdrawn) <= |list|
  {
    if list != [] {
      CountsBounded(list[1..]);
    }
  }

  /**
   * When every status is a known one, the counts partition the list: the
   * gap between active + graduated + suspended and the total is exactly the
   * number of withdrawn students.
   */
  lemma {:induction false} CountsPartition(list: seq<Student>)
    requires forall i :: 0 <= i < |list| ==> KnownStatus(list[i].status)
    ensures CountStatus(list, Active) + CountStatus(list, Graduated) + CountStatus(list, Suspended)
            + CountStatus(list, Withdrawn) == |list|
  {
    if list != [] {
      CountsPartition(list[1..]);
    }
  }

  /** With every GPA in [0.0, 4.0], so is the average: rounding never leaves the range. */
  lemma AverageWithinRange(list: seq<Student>)
    requires forall i :: 0 <= i < |list| ==> 0.0 <= list[i].gpa <= 4.0
    ensures 0.0 <= AverageGpa(list) <= 4.0
  {
    if list != [] {
      var n := |list| as real;
      assert 0.0 <= SumGpa(list) <= 4.0 * n;
      MeanInRange(SumGpa(list), n);
      RoundInRange(SumGpa(list) / n);
    }
  }

  /** A sum of n values from [0, 4], divided by n, lies in [0, 4]. */
  lemma MeanInRange(sum: real, n: real)
    requires n >= 1.0 && 0.0 <= sum <= 4.0 * n
    ensures 0.0 <= sum / n <= 4.0
  {
    assert (sum / n) * n == sum;
  }

  /** Rounding to two places keeps a value of [0, 4] in [0, 4]. */
  lemma RoundInRange(x: real)
    requires 0.0 <= x <= 4.0
    ensures 0.0 <= Round2(x) <= 4.0
  {
    var k := (x * 100.0 + 0.5).Floor;
    assert k <= 400;
  }

  /** Four students with statuses active, active, graduated, suspended and GPAs 3.0, 4.0, 2.0, 1.0. */
  lemma StatisticsOfFour(a: Student, b: Student, c: Student, d: Student)
    requires a.status == Active && b.status == Active && c.status == Graduated && d.status == Suspended
    requires a.gpa == 3.0 && b.gpa == 4.0 && c.gpa == 2.0 && d.gpa == 1.0
    ensures ComputeStatistics([a, b, c, d]) == Statistics(2, 1, 1, 4, 2.5)
  {
    var list := [a, b, c, d];
    StatusesDistinct();
    assert [d][1..] == [] && [c, d][1..] == [d] && [b, c, d][1..] == [c, d] && list[1..] == [b, c, d];
    assert SumGpa([d]) == 1.0;
    assert SumGpa([c, d]) == 3.0;
    assert SumGpa([b, c, d]) == 7.0;
    assert SumGpa(list) == 10.0;
    assert CountStatus([d], Active) == 0 && CountStatus([d], Graduated) == 0 && CountStatus([d], Suspended) == 1;
    assert CountStatus([c, d], Active) == 0 && CountStatus([c, d], Graduated) == 1 && CountStatus([c, d], Suspended) == 1;
    assert CountStatus([b, c, d], Active) == 1 && CountStatus([b, c, d], Graduated) == 1;
    assert CountStatus([b, c, d], Suspended) == 1;
    assert (250.5).Floor == 250;
  }
}
