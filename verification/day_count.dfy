/**
  Day and month counting of the settlement comparator.

  Instants are integer milliseconds, the value `Date.getTime()` yields; how a
  calendar date becomes such an instant (parsing, time zone, the start of the
  exit year) is decided by the caller. Everything else follows the calculator's
  fixed-length calendar: a day is 86 400 000 ms, a month 30 days, a year 365
  days, with no leap years and no real calendar months.
 */
module DayCount {

  const MsPerDay: nat := 1000 * 60 * 60 * 24
  const DaysPerMonth: nat := 30
  const DaysPerYear: nat := 365
  /** The cap applied to the months counted in the exit year. */
  const MonthsPerYear: nat := 12

  /** `Math.abs` on integers. */
  function Abs(x: int): (r: nat)
    ensures r == x || r == -x
  {
    if x < 0 then -x else x
  }

  /** `Math.ceil(n / d)` for a non-negative numerator and a positive divisor:
      the least multiple count of `d` that covers `n`. */
  function CeilDiv(n: nat, d: nat): (q: nat)
    requires d > 0
    ensures (q - 1) * d < n <= q * d
  {
    var q := (n + d - 1) / d;
    assert n + d - 1 == q * d + (n + d - 1) % d;
    q
  }

  /** The bracket of `CeilDiv` has exactly one solution. */
  lemma CeilDivUnique(n: nat, d: nat, q: nat)
    requires d > 0
    requires (q - 1) * d < n <= q * d
    ensures q == CeilDiv(n, d)
  {
    var c := CeilDiv(n, d);
    if q < c {
      MulMonotone(q, c - 1, d);
      assert false;
    } else if c < q {
      MulMonotone(c, q - 1, d);
      assert false;
    }
  }

  lemma MulMonotone(x: int, y: int, k: nat)
    requires x <= y
    ensures x * k <= y * k
  {
  }

  /** Rounding up in two steps is rounding up once by the product of the
      divisors: ceil(ceil(n / a) / b) = ceil(n / (a * b)). */
  lemma CeilDivNested(n: nat, a: nat, b: nat)
    requires a > 0 && b > 0
    ensures CeilDiv(CeilDiv(n, a), b) == CeilDiv(n, a * b)
  {
    var q1 := CeilDiv(n, a);
    var q := CeilDiv(q1, b);
    // Upper side: n <= q1 * a <= (q * b) * a.
    MulMonotone(q1, q * b, a);
    assert n <= q * (a * b);
    // Lower side: (q - 1) * b <= q1 - 1, hence (q - 1) * b * a <= (q1 - 1) * a < n.
    var below := q1 as int - 1;
    MulMonotone((q - 1) * b, below, a);
    assert (q - 1) * (a * b) < n;
    CeilDivUnique(n, a * b, q);
  }

  /** Whole days between two instants, in either order, rounded up
      (`Math.ceil(Math.abs(to - from) / msPerDay)`). */
  function ElapsedDays(from: int, to: int): (days: nat)
    ensures (days - 1) * MsPerDay < Abs(to - from) <= days * MsPerDay
  {
    CeilDiv(Abs(to - from), MsPerDay)
  }

  /** Swapping the two instants leaves the day count unchanged. */
  lemma ElapsedDaysSymmetric(a: int, b: int)
    ensures ElapsedDays(a, b) == ElapsedDays(b, a)
  {
    assert Abs(b - a) == Abs(a - b);
  }

  /** Time of service: full 365-day years, then full 30-day months of what
      is left over. */
  datatype Tenure = Tenure(anosCompletos: nat, mesesTrabalhados: nat)

  /** Splits a day count into full years and the full months of the
      remainder. The remainder is below 365 days, so at most 12 months. */
  function TenureOf(diffDays: nat): (t: Tenure)
    ensures DaysPerYear * t.anosCompletos <= diffDays < DaysPerYear * (t.anosCompletos + 1)
    ensures DaysPerMonth * t.mesesTrabalhados
            <= diffDays - DaysPerYear * t.anosCompletos
            < DaysPerMonth * (t.mesesTrabalhados + 1)
    ensures t.mesesTrabalhados <= MonthsPerYear
  {
    var anos := diffDays / DaysPerYear;
    var resto := diffDays % DaysPerYear;
    Tenure(anos, resto / DaysPerMonth)
  }

  /** Any years/months/leftover-days decomposition is the one `TenureOf`
      computes, so the split loses only the leftover days. */
  lemma TenureOfRecompose(anos: nat, meses: nat, dias: nat)
    requires dias < DaysPerMonth
    requires DaysPerMonth * meses + dias < DaysPerYear
    ensures TenureOf(DaysPerYear * anos + DaysPerMonth * meses + dias) == Tenure(anos, meses)
  {
    var t := TenureOf(DaysPerYear * anos + DaysPerMonth * meses + dias);
    assert t.anosCompletos == anos;
  }

  /** More days never mean fewer full years. */
  lemma TenureYearsMonotone(d1: nat, d2: nat)
    requires d1 <= d2
    ensures TenureOf(d1).anosCompletos <= TenureOf(d2).anosCompletos
  {
  }

  /** Months counted for the year-end bonus, from the instant the exit year
      starts to the exit instant: started 30-day periods, capped at 12. */
  function MonthsInExitYear(saida: int, inicioAno: int): (m: nat)
    ensures m <= MonthsPerYear
    ensures m < MonthsPerYear ==>
              (m - 1) * (MsPerDay * DaysPerMonth) < Abs(saida - inicioAno) <= m * (MsPerDay * DaysPerMonth)
    ensures m == MonthsPerYear ==>
              (MonthsPerYear - 1) * (MsPerDay * DaysPerMonth) < Abs(saida - inicioAno)
  {
    var meses := CeilDiv(Abs(saida - inicioAno), MsPerDay * DaysPerMonth);
    if meses < MonthsPerYear then meses
    else
      MulMonotone(MonthsPerYear, meses, MsPerDay * DaysPerMonth);
      MonthsPerYear
  }

  /** The same month count read off a whole-day count. */
  function MonthsInExitYearByDays(days: nat): (m: nat)
    ensures m <= MonthsPerYear
    ensures m < MonthsPerYear ==> (m - 1) * DaysPerMonth < days <= m * DaysPerMonth
    ensures m == MonthsPerYear ==> (MonthsPerYear - 1) * DaysPerMonth < days
  {
    var meses := CeilDiv(days, DaysPerMonth);
    if meses < MonthsPerYear then meses else MonthsPerYear
  }

  /** Counting months straight from milliseconds agrees with first rounding
      up to whole days and then counting months of those days. */
  lemma MonthsInExitYearViaDays(saida: int, inicioAno: int)
    ensures MonthsInExitYear(saida, inicioAno) == MonthsInExitYearByDays(ElapsedDays(inicioAno, saida))
  {
    CeilDivNested(Abs(saida - inicioAno), MsPerDay, DaysPerMonth);
  }
}
