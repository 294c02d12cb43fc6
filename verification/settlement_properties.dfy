/**
  Properties of the settlement comparator that relate several figures or
  several calls.
 */
module SettlementProperties {
  import opened DayCount
  import opened Settlement

  /** The difference is what only the indirect termination pays: notice,
      fund penalty and fund release; in closed form one salary plus a tenth
      per full year, plus 1.4 times the fund balance. It does not depend on
      the month counts. */
  lemma DifferenceClosedForm(salario: real, fgts: real, t: Tenure, mesesAnoCorrente: nat)
    ensures var c := Compare(salario, fgts, t, mesesAnoCorrente);
            && c.diferenca == c.rescisaoIndireta.avisoPrevi + c.rescisaoIndireta.multaFGTS + fgts
            && c.diferenca * 10.0 == salario * (10 + t.anosCompletos) as real + 14.0 * fgts
  {
    NoticePayPerYear(salario, fgts, t, mesesAnoCorrente);
  }

  /** With non-negative amounts the indirect termination never pays less,
      and pays strictly more exactly when the salary or the fund is
      positive. */
  lemma DifferenceSign(salario: real, fgts: real, t: Tenure, mesesAnoCorrente: nat)
    requires salario >= 0.0 && fgts >= 0.0
    ensures Compare(salario, fgts, t, mesesAnoCorrente).diferenca >= 0.0
    ensures Compare(salario, fgts, t, mesesAnoCorrente).diferenca > 0.0 <==> salario > 0.0 || fgts > 0.0
  {
    DifferenceClosedForm(salario, fgts, t, mesesAnoCorrente);
    ClosedFormSign(salario, fgts, t.anosCompletos, Compare(salario, fgts, t, mesesAnoCorrente).diferenca);
  }

  /** The sign of the closed form of the difference. */
  lemma ClosedFormSign(salario: real, fgts: real, anos: nat, d: real)
    requires salario >= 0.0 && fgts >= 0.0
    requires d * 10.0 == salario * (10 + anos) as real + 14.0 * fgts
    ensures d >= 0.0
    ensures d > 0.0 <==> salario > 0.0 || fgts > 0.0
  {
    ScaleMonotone(salario, 10.0, (10 + anos) as real);
    if salario == 0.0 {
      assert salario * (10 + anos) as real == 0.0;
    }
  }

  /** With non-negative amounts and month counts within their caps every
      figure of both scenarios is non-negative. */
  lemma FiguresNonNegative(salario: real, fgts: real, t: Tenure, mesesAnoCorrente: nat)
    requires salario >= 0.0 && fgts >= 0.0
    requires mesesAnoCorrente <= MonthsPerYear && t.mesesTrabalhados <= MonthsPerYear
    ensures NonNegative(Compare(salario, fgts, t, mesesAnoCorrente).pedirDemissao)
    ensures NonNegative(Compare(salario, fgts, t, mesesAnoCorrente).rescisaoIndireta)
  {
    CompareBounds(salario, fgts, t, mesesAnoCorrente);
  }

  predicate NonNegative(s: Scenario) {
    && s.saldoSalario >= 0.0 && s.decimoTerceiro >= 0.0 && s.ferias >= 0.0
    && s.avisoPrevi >= 0.0 && s.multaFGTS >= 0.0 && s.saqueFGTS >= 0.0 && s.total >= 0.0
  }

  predicate AllZero(s: Scenario) {
    && s.saldoSalario == 0.0 && s.decimoTerceiro == 0.0 && s.ferias == 0.0
    && s.avisoPrevi == 0.0 && s.multaFGTS == 0.0 && s.saqueFGTS == 0.0 && s.total == 0.0
  }

  /** No salary and no fund give an all-zero comparison, whatever the
      instants. */
  lemma ZeroInZeroOut(e: Input)
    requires e.salario == 0.0 && e.fgts == 0.0
    ensures AllZero(CalcularRescisao(e).pedirDemissao)
    ensures AllZero(CalcularRescisao(e).rescisaoIndireta)
    ensures CalcularRescisao(e).diferenca == 0.0
  {
  }

  /** A full year of service adds one uplifted salary to the vacation pay:
      the vested period. */
  lemma VestedVacationPeriod(salario: real, fgts: real, anos: nat, meses: nat, mesesAnoCorrente: nat)
    requires anos >= 1
    ensures Compare(salario, fgts, Tenure(anos, meses), mesesAnoCorrente).rescisaoIndireta.ferias
            == Compare(salario, fgts, Tenure(0, meses), mesesAnoCorrente).rescisaoIndireta.ferias
               + VacationUplift * salario
  {
  }

  /** Within the first year the notice pay is exactly one salary. */
  lemma NoticeInFirstYear(salario: real, fgts: real, t: Tenure, mesesAnoCorrente: nat)
    requires t.anosCompletos == 0
    ensures Compare(salario, fgts, t, mesesAnoCorrente).rescisaoIndireta.avisoPrevi == salario
  {
  }

  /** A longer tenure never lowers the difference when the salary is
      non-negative: it only adds notice days. */
  lemma DifferenceMonotoneInTenure(salario: real, fgts: real, d1: nat, d2: nat, mesesAnoCorrente: nat)
    requires salario >= 0.0 && d1 <= d2
    ensures Compare(salario, fgts, TenureOf(d1), mesesAnoCorrente).diferenca
            <= Compare(salario, fgts, TenureOf(d2), mesesAnoCorrente).diferenca
  {
    var t1, t2 := TenureOf(d1), TenureOf(d2);
    TenureYearsMonotone(d1, d2);
    DifferenceClosedForm(salario, fgts, t1, mesesAnoCorrente);
    DifferenceClosedForm(salario, fgts, t2, mesesAnoCorrente);
    ClosedFormMonotone(salario, fgts, t1.anosCompletos, t2.anosCompletos,
                       Compare(salario, fgts, t1, mesesAnoCorrente).diferenca,
                       Compare(salario, fgts, t2, mesesAnoCorrente).diferenca);
  }

  /** The closed form of the difference grows with the full years. */
  lemma ClosedFormMonotone(salario: real, fgts: real, a1: nat, a2: nat, d1: real, d2: real)
    requires salario >= 0.0 && a1 <= a2
    requires d1 * 10.0 == salario * (10 + a1) as real + 14.0 * fgts
    requires d2 * 10.0 == salario * (10 + a2) as real + 14.0 * fgts
    ensures d1 <= d2
  {
    ScaleMonotone(salario, (10 + a1) as real, (10 + a2) as real);
  }

  /** Only one vested vacation period is ever counted, so from the second
      anniversary on the vacation pay falls by one uplifted salary from the
      last day of a year (twelve months counted) to the anniversary (none),
      and the indirect total with it, less the tenth of a salary of notice
      that the new year adds. */
  lemma VacationDropsAtAnniversary(salario: real, fgts: real, k: nat, mesesAnoCorrente: nat)
    requires k >= 1
    ensures var before := Compare(salario, fgts, TenureOf(DaysPerYear * k + DaysPerYear - 1), mesesAnoCorrente);
            var after := Compare(salario, fgts, TenureOf(DaysPerYear * (k + 1)), mesesAnoCorrente);
            && before.rescisaoIndireta.ferias - after.rescisaoIndireta.ferias == VacationUplift * salario
            && (before.rescisaoIndireta.total - after.rescisaoIndireta.total) * 100.0 == 123.0 * salario
  {
    var t1, t2 := TenureOf(DaysPerYear * k + DaysPerYear - 1), TenureOf(DaysPerYear * (k + 1));
    TenureOfRecompose(k, MonthsPerYear, 4);
    TenureOfRecompose(k + 1, 0, 0);
    assert t1 == Tenure(k, 12) && t2 == Tenure(k + 1, 0);
    var before := Compare(salario, fgts, t1, mesesAnoCorrente).rescisaoIndireta;
    var after := Compare(salario, fgts, t2, mesesAnoCorrente).rescisaoIndireta;
    assert before.ferias * 12.0 == VacationUplift * salario * 24.0;
    assert after.ferias * 12.0 == VacationUplift * salario * 12.0;
    NoticePayPerYear(salario, fgts, t1, mesesAnoCorrente);
    NoticePayPerYear(salario, fgts, t2, mesesAnoCorrente);
    OneMoreUnit(salario, 10 + k);
    assert after.avisoPrevi * 10.0 == before.avisoPrevi * 10.0 + salario;
  }

  /** One more unit adds the rate once. */
  lemma OneMoreUnit(rate: real, n: nat)
    ensures rate * (n + 1) as real == rate * n as real + rate
  {
  }

  /** Swapping the hire and exit instants leaves the time of service, and
      with it every figure but the year-end bonus, unchanged; if the exit
      lies as far from its year start as before, the whole comparison is
      unchanged. */
  lemma SwappedDates(e1: Input, e2: Input)
    requires e2.salario == e1.salario && e2.fgts == e1.fgts
    requires e2.admissao == e1.saida && e2.saida == e1.admissao
    ensures var c1 := CalcularRescisao(e1).rescisaoIndireta;
            var c2 := CalcularRescisao(e2).rescisaoIndireta;
            c1.saldoSalario == c2.saldoSalario && c1.ferias == c2.ferias && c1.avisoPrevi == c2.avisoPrevi
            && c1.multaFGTS == c2.multaFGTS && c1.saqueFGTS == c2.saqueFGTS
    ensures Abs(e2.saida - e2.inicioAno) == Abs(e1.saida - e1.inicioAno) ==>
              CalcularRescisao(e1) == CalcularRescisao(e2)
  {
    ElapsedDaysSymmetric(e1.admissao, e1.saida);
  }

  /** Hiring and leaving on the same instant: no full year, no month worked,
      no vacation pay, one salary of notice. */
  lemma SameDayHireAndExit(e: Input)
    requires e.admissao == e.saida
    ensures TenureOf(ElapsedDays(e.admissao, e.saida)) == Tenure(0, 0)
    ensures CalcularRescisao(e).rescisaoIndireta.ferias == 0.0
    ensures CalcularRescisao(e).rescisaoIndireta.avisoPrevi == e.salario
  {
    TenureOfRecompose(0, 0, 0);
  }

  /** The comparator sees the instants only through two whole-day counts:
      days of service, and days from the start of the exit year to the exit. */
  lemma DayCountView(e: Input)
    ensures CalcularRescisao(e)
            == Compare(e.salario, e.fgts,
                       TenureOf(ElapsedDays(e.admissao, e.saida)),
                       MonthsInExitYearByDays(ElapsedDays(e.inicioAno, e.saida)))
  {
    MonthsInExitYearViaDays(e.saida, e.inicioAno);
  }

  /** Salary 3000, fund 15000, four years of service (1461 days, leap day
      included) and an exit on the first instant of its year. */
  lemma FourYearsExample()
    ensures var c := CalcularRescisao(Input(3000.0, 15000.0, 0, 1461 * MsPerDay, 1461 * MsPerDay));
            && c.rescisaoIndireta == Scenario(3000.0, 0.0, 3990.0, 4200.0, 6000.0, 15000.0, 32190.0)
            && c.pedirDemissao == Scenario(3000.0, 0.0, 3990.0, 0.0, 0.0, 0.0, 6990.0)
            && c.diferenca == 25200.0
  {
    CeilDivUnique(1461 * MsPerDay, MsPerDay, 1461);
    TenureOfRecompose(4, 0, 1);
  }
}
