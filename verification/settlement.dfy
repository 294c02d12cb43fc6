/**
  The settlement comparator: from a salary, a severance-fund (FGTS) balance
  and three instants (hire, exit, start of the exit year) it builds the
  itemized breakdown of a resignation ("pedir demissão") and of an
  employer-caused termination ("rescisão indireta"), and the difference of
  their totals.

  Money is an exact `real`; the vacation uplift is the literal 1.33 and the
  fund penalty the literal 0.4.
 */
module Settlement {
  import opened DayCount

  /** Vacation uplift, the literal 1.33 standing in for the one-third bonus. */
  const VacationUplift: real := 1.33
  /** Share of the fund balance paid as the exit penalty. */
  const FundPenaltyRate: real := 0.4
  /** Notice period with less than one full year of service, in days. */
  const BaseNoticeDays: nat := 30
  /** Extra notice days per full year of service. */
  const NoticeDaysPerYear: nat := 3

  /** One itemized settlement. */
  datatype Scenario = Scenario(
    saldoSalario: real,
    decimoTerceiro: real,
    ferias: real,
    avisoPrevi: real,
    multaFGTS: real,
    saqueFGTS: real,
    total: real)

  /** The comparison the comparator returns. */
  datatype Calculo = Calculo(
    pedirDemissao: Scenario,
    rescisaoIndireta: Scenario,
    diferenca: real)

  /** The comparator's input: salary and fund as numbers, the hire and exit
      dates as millisecond instants, and the start of the exit year, which
      the caller computes from the exit instant's local year. The reason for
      leaving is not part of it: it never reaches the arithmetic. */
  datatype Input = Input(
    salario: real,
    fgts: real,
    admissao: int,
    saida: int,
    inicioAno: int)

  /** The total is exactly the sum of the six components. */
  predicate TotalIsSum(s: Scenario) {
    s.total == s.saldoSalario + s.decimoTerceiro + s.ferias + s.avisoPrevi + s.multaFGTS + s.saqueFGTS
  }

  /** The shape every comparison has: both totals are component sums, the
      resignation gets neither notice pay nor anything from the fund, both
      scenarios share the salary, bonus and vacation figures, and the
      difference is the indirect total minus the resignation total. */
  predicate WellFormed(c: Calculo) {
    && TotalIsSum(c.pedirDemissao)
    && TotalIsSum(c.rescisaoIndireta)
    && c.pedirDemissao.avisoPrevi == 0.0
    && c.pedirDemissao.multaFGTS == 0.0
    && c.pedirDemissao.saqueFGTS == 0.0
    && c.pedirDemissao.saldoSalario == c.rescisaoIndireta.saldoSalario
    && c.pedirDemissao.decimoTerceiro == c.rescisaoIndireta.decimoTerceiro
    && c.pedirDemissao.ferias == c.rescisaoIndireta.ferias
    && c.diferenca == c.rescisaoIndireta.total - c.pedirDemissao.total
  }

  /** Both scenarios for a given time of service and a given count of months
      in the exit year. */
  function Compare(salario: real, fgts: real, t: Tenure, mesesAnoCorrente: nat): (c: Calculo)
    ensures WellFormed(c)
    // One month of salary is always owed.
    ensures c.rescisaoIndireta.saldoSalario == salario
    // The year-end bonus is a twelfth of the salary per month of the exit year.
    ensures c.rescisaoIndireta.decimoTerceiro * 12.0 == salario * mesesAnoCorrente as real
    // Vacation: one vested period after a full year, plus a twelfth per
    // month worked, the whole uplifted by 1.33.
    ensures t.anosCompletos >= 1 ==>
              c.rescisaoIndireta.ferias * 12.0 == VacationUplift * salario * (12 + t.mesesTrabalhados) as real
    ensures t.anosCompletos == 0 ==>
              c.rescisaoIndireta.ferias * 12.0 == VacationUplift * salario * t.mesesTrabalhados as real
    // Notice pay: the daily rate for 30 days plus 3 per full year.
    ensures c.rescisaoIndireta.avisoPrevi * 30.0
            == salario * (BaseNoticeDays + NoticeDaysPerYear * t.anosCompletos) as real
    // The fund: a 40% penalty and the whole balance released.
    ensures c.rescisaoIndireta.multaFGTS == FundPenaltyRate * fgts
    ensures c.rescisaoIndireta.saqueFGTS == fgts
  {
    var saldoSalario := salario;
    var decimoTerceiro := (salario / 12.0) * mesesAnoCorrente as real;
    var ferias :=
      (if t.anosCompletos >= 1
       then salario + (salario / 12.0) * t.mesesTrabalhados as real
       else (salario / 12.0) * t.mesesTrabalhados as real) * VacationUplift;
    var diasAvisoPrevi := BaseNoticeDays + t.anosCompletos * NoticeDaysPerYear;
    var avisoPrevi := (salario / 30.0) * diasAvisoPrevi as real;
    var multaFGTS := fgts * FundPenaltyRate;
    var pedirDemissao := Scenario(
      saldoSalario, decimoTerceiro, ferias, 0.0, 0.0, 0.0,
      saldoSalario + decimoTerceiro + ferias);
    var rescisaoIndireta := Scenario(
      saldoSalario, decimoTerceiro, ferias, avisoPrevi, multaFGTS, fgts,
      saldoSalario + decimoTerceiro + ferias + avisoPrevi + multaFGTS + fgts);
    Calculo(pedirDemissao, rescisaoIndireta, rescisaoIndireta.total - pedirDemissao.total)
  }

  lemma ScaleMonotone(k: real, x: real, y: real)
    requires k >= 0.0 && x <= y
    ensures k * x <= k * y
  {
  }

  /** A non-negative rate times a count of at most `bound` units. */
  lemma CountedAmountBounds(rate: real, count: nat, bound: nat, scaled: real)
    requires rate >= 0.0 && count <= bound
    requires scaled == rate * count as real
    ensures 0.0 <= scaled <= rate * bound as real
  {
    ScaleMonotone(rate, 0.0, count as real);
    ScaleMonotone(rate, count as real, bound as real);
  }

  /** With month counts inside their caps and a non-negative salary, the
      bonus stays within one salary, the vacation within two uplifted
      salaries and the notice pay at one salary or more; for any salary the
      notice pay is one salary plus a tenth per full year. */
  lemma CompareBounds(salario: real, fgts: real, t: Tenure, mesesAnoCorrente: nat)
    requires mesesAnoCorrente <= MonthsPerYear && t.mesesTrabalhados <= MonthsPerYear
    ensures var r := Compare(salario, fgts, t, mesesAnoCorrente).rescisaoIndireta;
            && (salario >= 0.0 ==> 0.0 <= r.decimoTerceiro <= salario)
            && (salario >= 0.0 ==> 0.0 <= r.ferias <= 2.0 * VacationUplift * salario)
            && (salario >= 0.0 ==> salario <= r.avisoPrevi)
            && r.avisoPrevi * 10.0 == salario * (10 + t.anosCompletos) as real
  {
    NoticePayPerYear(salario, fgts, t, mesesAnoCorrente);
    var r := Compare(salario, fgts, t, mesesAnoCorrente).rescisaoIndireta;
    if salario >= 0.0 {
      CountedAmountBounds(salario, mesesAnoCorrente, 12, r.decimoTerceiro * 12.0);
      var u := VacationUplift * salario;
      var months := if t.anosCompletos >= 1 then 12 + t.mesesTrabalhados else t.mesesTrabalhados;
      assert r.ferias * 12.0 == u * months as real;
      CountedAmountBounds(u, months, 24, r.ferias * 12.0);
      ScaleMonotone(salario, 10.0, (10 + t.anosCompletos) as real);
    }
  }

  /** Notice pay is one salary plus a tenth of a salary per full year. */
  lemma NoticePayPerYear(salario: real, fgts: real, t: Tenure, mesesAnoCorrente: nat)
    ensures Compare(salario, fgts, t, mesesAnoCorrente).rescisaoIndireta.avisoPrevi * 10.0
            == salario * (10 + t.anosCompletos) as real
  {
    assert salario * (BaseNoticeDays + NoticeDaysPerYear * t.anosCompletos) as real
           == 3.0 * (salario * (10 + t.anosCompletos) as real);
  }

  /** The comparator itself: the time of service from the hire and exit
      instants, the months of the exit year from its start to the exit, then
      both scenarios. */
  function CalcularRescisao(e: Input): (c: Calculo)
    ensures WellFormed(c)
    ensures c.rescisaoIndireta.saldoSalario == e.salario
    ensures c.rescisaoIndireta.multaFGTS == FundPenaltyRate * e.fgts
    ensures c.rescisaoIndireta.saqueFGTS == e.fgts
    // The 12-month cap bounds the bonus by one salary.
    ensures e.salario >= 0.0 ==> 0.0 <= c.rescisaoIndireta.decimoTerceiro <= e.salario
    // At most one vested period plus twelve months, uplifted.
    ensures e.salario >= 0.0 ==> 0.0 <= c.rescisaoIndireta.ferias <= 2.0 * VacationUplift * e.salario
    // Notice pay is never below one salary and grows by a tenth of a salary per year.
    ensures e.salario >= 0.0 ==> e.salario <= c.rescisaoIndireta.avisoPrevi
    ensures c.rescisaoIndireta.avisoPrevi * 10.0
            == e.salario * (10 + TenureOf(ElapsedDays(e.admissao, e.saida)).anosCompletos) as real
  {
    var t := TenureOf(ElapsedDays(e.admissao, e.saida));
    var mesesAnoCorrente := MonthsInExitYear(e.saida, e.inicioAno);
    CompareBounds(e.salario, e.fgts, t, mesesAnoCorrente);
    var c := Compare(e.salario, e.fgts, t, mesesAnoCorrente);
    c
  }
}
