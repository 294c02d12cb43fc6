# Settlement comparator (calculadora de rescisão) in Dafny

This project models the calculation engine of a Brazilian labour-settlement
simulator. From a gross monthly salary, an FGTS balance (the employer-funded
severance fund) and the hire and exit dates, the engine builds two itemized
settlements:

- **pedir demissão**: the employee resigns;
- **rescisão indireta**: the employer's fault ends the contract.

It also returns the difference of their totals. Each settlement lists:

- the salary balance (`saldoSalario`);
- the proportional 13th salary (`decimoTerceiro`);
- vacation pay with its bonus (`ferias`);
- notice pay in lieu (`avisoPrevi`);
- the 40% FGTS penalty (`multaFGTS`);
- the FGTS release (`saqueFGTS`);
- the total.

The model has three modules:

- `DayCount` (`day_count.dfy`) covers the time arithmetic. Instants are
  integer milliseconds, the value `Date.getTime()` gives. Elapsed days are
  `ceil(|to − from| / 86 400 000)`. Tenure is split into full 365-day years
  and full 30-day months of the remainder. The months of the exit year are
  `min(12, ceil(|exit − yearStart| / (30 days)))`.
- `Settlement` (`settlement.dfy`) holds the result records `Scenario` and
  `Calculo`, the input record, and the comparator. `Compare` works from a
  tenure and a month count. `CalcularRescisao` works from the input record.
- `SettlementProperties` (`settlement_properties.dfy`) holds the lemmas that
  relate figures or calls.

Modelling choices:

- Money is an exact `real`. The literals 1.33 (vacation uplift) and 0.4
  (FGTS penalty) are kept as written.
- The comparator is a Dafny function, so calling it twice on the same input
  gives the same result by construction.
- The 13th salary is counted with the exit-year month count (started 30-day
  periods, rounded up and capped at 12). It does not use the tenure months.

Kept as the code has it:

- The vacation factor is the literal 1.33, though the comment at that line
  says "+ 1/3". So vacation pay is 1/300 of its base below a true one-third
  bonus.
- The exit-year month count rounds up (`Math.ceil`).

Two behaviours of the code that the lemmas make explicit:

- Only one vested vacation period is ever counted. From the second
  anniversary on, vacation pay therefore falls by one uplifted salary from
  the day before an anniversary (twelve months counted) to the anniversary
  (none). See `SettlementProperties.VacationDropsAtAnniversary`.
- The remainder months can reach 12: days 360 to 364 of a year.

## Model

| member | source | states |
|---|---|---|
| `DayCount.Abs` | src/app/page.tsx:56 | the result is the argument or its negation, and never negative |
| `DayCount.CeilDiv` | src/app/page.tsx:57 | the result q is the least count with q·d ≥ n: (q−1)·d < n ≤ q·d |
| `DayCount.CeilDivUnique` | src/app/page.tsx:57 | any q satisfying that bracket equals `CeilDiv`, so the bracket characterizes rounding up |
| `DayCount.CeilDivNested` | src/app/page.tsx:57-64 | rounding up by a, then by b, equals rounding up once by a·b |
| `DayCount.ElapsedDays` | src/app/page.tsx:56-57 | the day count d brackets the absolute millisecond distance: (d−1)·86 400 000 < abs(to−from) ≤ d·86 400 000 |
| `DayCount.ElapsedDaysSymmetric` | src/app/page.tsx:56 | swapping the two instants gives the same day count |
| `DayCount.TenureOf` | src/app/page.tsx:58-59 | the full years a satisfy 365a ≤ days < 365(a+1); the months m satisfy 30m ≤ days−365a < 30(m+1); m ≤ 12 |
| `DayCount.TenureOfRecompose` | src/app/page.tsx:58-59 | 365·a + 30·m + r days with r < 30 and 30m + r < 365 split back into exactly a years and m months |
| `DayCount.TenureYearsMonotone` | src/app/page.tsx:58 | more days never give fewer full years |
| `DayCount.MonthsInExitYear` | src/app/page.tsx:62-64 | the count is at most 12; below 12 it is the rounded-up number of 30-day periods from year start to exit; 12 means more than 11 such periods |
| `DayCount.MonthsInExitYearByDays` | src/app/page.tsx:64 | the same bracket and cap, in whole days: min(12, ceil(days/30)) |
| `DayCount.MonthsInExitYearViaDays` | src/app/page.tsx:57-64 | counting from milliseconds equals rounding up to whole days first and then counting 30-day periods |
| `Settlement.Compare` | src/app/page.tsx:66-110 | both totals are component sums; the resignation gets no notice, penalty or release; both scenarios share salary, 13th and vacation; the difference is indirect minus resignation; 13th = salary/12 per exit-year month; vacation = 1.33 × (one salary if a full year, plus salary/12 per month); notice = salary/30 × (30 + 3 per year); penalty = 0.4 × fund; release = fund |
| `Settlement.CompareBounds` | src/app/page.tsx:64-83 | with capped month counts and a non-negative salary: 13th between 0 and one salary; vacation between 0 and 2 × 1.33 salaries; notice at least one salary |
| `Settlement.NoticePayPerYear` | src/app/page.tsx:82-83 | notice pay = salary × (10 + full years)/10: one salary plus a tenth of a salary per full year, for any salary |
| `Settlement.CalcularRescisao` | src/app/page.tsx:49-119 | the result is well formed (as for `Compare`); salary balance = salary; penalty = 0.4 × fund; release = fund; the 13th, vacation and notice bounds hold; notice is one salary plus a tenth per full year of the instants' tenure |
| `SettlementProperties.DifferenceClosedForm` | src/app/page.tsx:82-110 | difference = notice + penalty + fund = salary × (10 + years)/10 + 1.4 × fund, whatever the month counts |
| `SettlementProperties.DifferenceSign` | src/app/page.tsx:82-110 | non-negative salary and fund give a difference ≥ 0, and > 0 exactly when salary or fund is positive |
| `SettlementProperties.ClosedFormSign` | src/app/page.tsx:82-110 | a difference of the closed form salary × (10 + years)/10 + 1.4 × fund is ≥ 0 for non-negative amounts, and > 0 exactly when salary or fund is positive |
| `SettlementProperties.FiguresNonNegative` | src/app/page.tsx:67-108 | non-negative salary and fund with capped month counts make every figure and total of both scenarios non-negative |
| `SettlementProperties.ZeroInZeroOut` | src/app/page.tsx:49-119 | zero salary and zero fund give all-zero figures, totals and difference for any instants |
| `SettlementProperties.VestedVacationPeriod` | src/app/page.tsx:71-79 | with a full year, vacation exceeds the no-full-year vacation for the same months by exactly 1.33 × salary |
| `SettlementProperties.NoticeInFirstYear` | src/app/page.tsx:82-83 | with no full year, notice pay is exactly one salary |
| `SettlementProperties.DifferenceMonotoneInTenure` | src/app/page.tsx:58-110 | with a non-negative salary, more days of service never lower the difference |
| `SettlementProperties.VacationDropsAtAnniversary` | src/app/page.tsx:58-108 | for k ≥ 1, vacation at day 365k+364 exceeds vacation at day 365(k+1) by 1.33 × salary; the indirect total falls by 1.23 × salary |
| `SettlementProperties.SwappedDates` | src/app/page.tsx:56-64 | swapping hire and exit keeps salary balance, vacation, notice and fund figures; with the same distance from year start to exit, the whole result is unchanged |
| `SettlementProperties.SameDayHireAndExit` | src/app/page.tsx:56-83 | equal hire and exit instants give no full year and no months, zero vacation, and one salary of notice |
| `SettlementProperties.DayCountView` | src/app/page.tsx:52-64 | the result depends on the instants only through the whole days of service and the whole days from year start to exit |
| `SettlementProperties.FourYearsExample` | src/app/page.tsx:49-119 | worked example: salary 3000, fund 15000, 1461 days of service, exit at year start. Indirect = (3000, 0, 3990, 4200, 6000, 15000; total 32190). Resignation total = 6990. Difference = 25200 |

## Left out

- Converting the form strings to numbers (`parseFloat(...) || 0`): the model takes the salary and fund as exact reals.
- Parsing the dates and computing the start of the exit year: `Date`, `getFullYear` and the time zone are not modelled. The three instants are inputs in milliseconds. So the UTC/local-time mismatch between the exit date and the local year start is the caller's business.
- Floating-point rounding: money is an exact `real`. `Math.ceil` of a millisecond quotient is exact integer rounding up, which IEEE doubles reproduce for realistic dates.
- NaN and infinite amounts do not exist in the model.
- A missing exit date is not modelled. The calculate button does not require it, so clearing it gives an invalid `Date`, and every figure derived from days, and both totals, become NaN. Integer instants cannot express that.
- The reason for leaving (`motivoSaida`): it never enters the arithmetic.
- React state (`useState`, `setResultado`, `setMostrarResultado`) is not modelled.
- The form, the result rendering and the enable rule of the calculate button are user interface.
- Currency and date formatting (`formatarMoeda`, `formatarData`) are not modelled: they wrap `Intl` and `toLocaleDateString`.
- The WhatsApp message and link are not modelled: they are string templating, `encodeURIComponent` and `window.open`.
- The PDF export is not modelled: it is layout code over jsPDF.
- Settlement.CalcularRescisao: its contract bounds the 13th salary and the vacation pay instead of stating their exact values. The exact values follow from `Settlement.Compare` through `SettlementProperties.DayCountView`.
