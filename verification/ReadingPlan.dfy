/** Reading-plan arithmetic of the club service
    (backend/app/domains/club/service.py). Dates are day numbers; the quotients
    are computed over the reals, where the source uses floats. */
module ReadingPlan {
  import opened Prelude

  const DEFAULT_PAGE_COUNT := 200

  /** `math.ceil(a / b)`. */
  function CeilDiv(a: int, b: int): int
    requires b > 0
  {
    (a as real / b as real).Floor + if (a as real / b as real).Floor as real == a as real / b as real then 0 else 1
  }

  function PlanWeeks(start: int, end: int): int {
    Max(1, CeilDiv(end - start + 1, 7))
  }

  function ElapsedWeeks(start: int, end: int, today: int): int {
    Min(Max(1, CeilDiv(today - start + 1, 7)), PlanWeeks(start, end))
  }

  /** A missing or zero page count falls back to the default. */
  function TotalPages(pageCount: Option<int>): int {
    if pageCount.None? || pageCount.value == 0 then DEFAULT_PAGE_COUNT else pageCount.value
  }

  function WeeklyPages(pageCount: Option<int>, start: int, end: int): int {
    CeilDiv(TotalPages(pageCount), PlanWeeks(start, end))
  }

  function ProgressPct(currentPage: int, weeklyPages: int, elapsedWeeks: int): real {
    var expected := weeklyPages * elapsedWeeks;
    if expected <= 0 then 0.0
    else Clamped(currentPage as real / expected as real * 100.0)
  }

  function Clamped(pct: real): real {
    if pct < 0.0 then 0.0 else if pct > 100.0 then 100.0 else pct
  }

  // ---------- ceiling division ----------

  lemma QuotientBounds(a: int, b: int, n: int)
    requires b > 0
    ensures n as real <= a as real / b as real <==> n * b <= a
    ensures n as real >= a as real / b as real <==> n * b >= a
  {
    var q := a as real / b as real;
    assert q * b as real == a as real;
    assert (n * b) as real == n as real * b as real;
    if n as real <= q {
      assert n as real * b as real <= q * b as real;
    } else {
      assert n as real * b as real > q * b as real;
    }
    if n as real >= q {
      assert n as real * b as real >= q * b as real;
    } else {
      assert n as real * b as real < q * b as real;
    }
  }

  /** The ceiling is the least integer whose multiple covers `a`. */
  lemma CeilDivIsLeast(a: int, b: int, n: int)
    requires b > 0
    ensures n >= CeilDiv(a, b) <==> n * b >= a
  {
    QuotientBounds(a, b, n);
  }

  // ---------- the plan ----------

  /** weekly_pages is the least weekly amount that covers the book within the plan. */
  lemma WeeklyPagesIsLeast(pageCount: Option<int>, start: int, end: int, n: int)
    ensures n >= WeeklyPages(pageCount, start, end) <==> n * PlanWeeks(start, end) >= TotalPages(pageCount)
  {
    CeilDivIsLeast(TotalPages(pageCount), PlanWeeks(start, end), n);
  }

  /** The plan's weeks are the fewest whole weeks, at least one, that hold every day from start to end. */
  lemma PlanWeeksIsLeast(start: int, end: int, n: int)
    ensures n >= PlanWeeks(start, end) <==> n >= 1 && 7 * n >= end - start + 1
  {
    CeilDivIsLeast(end - start + 1, 7, n);
  }

  /** Elapsed weeks never decrease with the date, stay within the plan, and reach its span on the last day. */
  lemma ElapsedWeeksTracksThePlan(start: int, end: int, today: int, later: int)
    requires today <= later
    ensures 1 <= ElapsedWeeks(start, end, today) <= ElapsedWeeks(start, end, later) <= PlanWeeks(start, end)
    ensures end <= later ==> ElapsedWeeks(start, end, later) == PlanWeeks(start, end)
  {
    var a, b, c := today - start + 1, later - start + 1, end - start + 1;
    CeilDivIsLeast(b, 7, CeilDiv(b, 7));
    CeilDivIsLeast(a, 7, CeilDiv(b, 7));
    CeilDivIsLeast(c, 7, CeilDiv(b, 7));
  }

  /** Today falls into week n of the plan, counted from 1, exactly while n weeks from the
      start reach today; before the start it is week 1, after the last week the last. */
  lemma ElapsedWeeksIsTheWeekOfToday(start: int, end: int, today: int, n: int)
    requires 1 <= n < PlanWeeks(start, end)
    ensures ElapsedWeeks(start, end, today) <= n <==> today < start + 7 * n
  {
    CeilDivIsLeast(today - start + 1, 7, n);
  }

  /** The weekly amount, in the terms of the request: 200 pages stand in for a book whose
      count is missing or 0, and n weekly pages suffice exactly when n times the weeks of
      the plan cover the book. */
  lemma WeeklyPagesCoverTheBook(pageCount: Option<int>, start: int, end: int, n: int)
    ensures var total := if pageCount.None? then 200 else if pageCount.value == 0 then 200 else pageCount.value;
            n >= WeeklyPages(pageCount, start, end) <==> n * PlanWeeks(start, end) >= total
  {
    WeeklyPagesIsLeast(pageCount, start, end, n);
  }

  // ---------- progress ----------

  /** Progress is the share of the expected pages in percent, at most 100 and at least 0;
      with nothing expected it is 0. */
  lemma ProgressIsTheShare(page: int, weekly: int, weeks: int)
    ensures var expected, pct := weekly * weeks, ProgressPct(page, weekly, weeks);
            && (expected <= 0 || page <= 0 ==> pct == 0.0)
            && (0 < expected <= page ==> pct == 100.0)
            && (0 <= page <= expected && expected > 0 ==> pct * expected as real == 100.0 * page as real)
  {
    var expected := weekly * weeks;
    if expected > 0 {
      var q := page as real / expected as real;
      assert q * expected as real == page as real;
      if page <= 0 {
        DivideOrder(page as real, expected as real, 0.0, 1.0);
      } else {
        DivideOrder(0.0, 1.0, page as real, expected as real);
      }
      if page >= expected {
        DivideOrder(1.0, 1.0, page as real, expected as real);
      }
      if page <= expected {
        DivideOrder(page as real, expected as real, 1.0, 1.0);
      }
      ScaledShare(q, expected as real);
    }
  }

  lemma ScaledShare(q: real, e: real)
    ensures (q * 100.0) * e == 100.0 * (q * e)
  {
  }

  lemma PositiveFactor(u: real, w: real)
    requires w > 0.0 && u * w >= 0.0
    ensures u >= 0.0
  {
  }

  lemma DivideOrder(a: real, b: real, c: real, d: real)
    requires b > 0.0 && d > 0.0 && a * d <= c * b
    ensures a / b <= c / d
  {
    var x, y := a / b, c / d;
    assert x * b == a && y * d == c;
    assert x * b * d == a * d && y * d * b == c * b;
    assert (y - x) * (b * d) == y * d * b - x * b * d;
    PositiveFactor(y - x, b * d);
  }

  lemma Cross(a: int, d: int, c: int, b: int)
    requires a * d <= c * b
    ensures a as real * d as real <= c as real * b as real
  {
    assert (a * d) as real == a as real * d as real;
    assert (c * b) as real == c as real * b as real;
  }

  lemma Scaled(a: int, b: int, n: int)
    requires a <= b && n >= 0
    ensures a * n <= b * n && n * a <= n * b
  {
  }

  lemma ShareGrowsWithPages(page: int, more: int, e: int)
    requires e > 0 && page <= more
    ensures page as real / e as real <= more as real / e as real
  {
    Scaled(page, more, e);
    Cross(page, e, more, e);
    DivideOrder(page as real, e as real, more as real, e as real);
  }

  lemma ShareShrinksWithPlan(page: int, e: int, f: int)
    requires 0 < e <= f && page >= 0
    ensures page as real / f as real <= page as real / e as real
  {
    Scaled(e, f, page);
    Cross(page, e, page, f);
    DivideOrder(page as real, f as real, page as real, e as real);
  }

  lemma NegativeShare(page: int, e: int)
    requires e > 0 && page < 0
    ensures page as real / e as real <= 0.0
  {
    DivideOrder(page as real, e as real, 0.0, 1.0);
  }

  lemma ExpectedGrows(weekly: int, weeks: int, more: int)
    requires 1 <= weeks <= more
    ensures weekly > 0 ==> 0 < weekly * weeks <= weekly * more
    ensures weekly <= 0 ==> weekly * weeks <= 0 && weekly * more <= 0
  {
    if weekly > 0 {
      assert weekly * more == weekly * weeks + weekly * (more - weeks);
    }
  }

  /** Progress is a percentage, grows with the pages read, and shrinks as weeks pass. */
  lemma ProgressIsMonotone(page: int, morePages: int, weekly: int, weeks: int, moreWeeks: int)
    requires page <= morePages && 1 <= weeks <= moreWeeks
    ensures 0.0 <= ProgressPct(page, weekly, weeks) <= 100.0
    ensures ProgressPct(page, weekly, weeks) <= ProgressPct(morePages, weekly, weeks)
    ensures ProgressPct(page, weekly, moreWeeks) <= ProgressPct(page, weekly, weeks)
  {
    ExpectedGrows(weekly, weeks, moreWeeks);
    if weekly > 0 {
      var e, f := weekly * weeks, weekly * moreWeeks;
      ShareGrowsWithPages(page, morePages, e);
      if page >= 0 {
        ShareShrinksWithPlan(page, e, f);
      } else {
        NegativeShare(page, e);
        NegativeShare(page, f);
      }
    }
  }

  lemma Products(total: int, page: int, expected: int, bound: int)
    requires 0 <= total <= page && 0 < expected <= bound
    ensures total * expected <= page * bound
  {
    Scaled(expected, bound, total);
    Scaled(total, page, bound);
  }

  /** A page count divided by a rounded-up plan. */
  lemma RoundedShare(total: int, page: int, expected: int, bound: int)
    requires 0 < total <= page && total <= expected <= bound
    ensures total as real / bound as real <= page as real / expected as real
    ensures total as real / bound as real <= 1.0
  {
    Products(total, page, expected, bound);
    Cross(total, expected, page, bound);
    DivideOrder(total as real, bound as real, page as real, expected as real);
    DivideOrder(total as real, bound as real, 1.0, 1.0);
  }

  lemma RoundingCostsLessThanAWeek(pageCount: Option<int>, start: int, end: int)
    requires TotalPages(pageCount) > 0
    ensures var total, weeks := TotalPages(pageCount), PlanWeeks(start, end);
            total <= WeeklyPages(pageCount, start, end) * weeks <= total + weeks - 1
  {
    var weeks, weekly := PlanWeeks(start, end), WeeklyPages(pageCount, start, end);
    WeeklyPagesIsLeast(pageCount, start, end, weekly);
    WeeklyPagesIsLeast(pageCount, start, end, weekly - 1);
    assert (weekly - 1) * weeks == weekly * weeks - weeks;
  }

  /** Rounding the weekly amount up costs at most weeks - 1 pages: a reader who has
      finished the book when the plan ends scores at least
      100 * total / (total + weeks - 1). */
  lemma FinishedReaderScore(pageCount: Option<int>, start: int, end: int, page: int)
    requires page >= TotalPages(pageCount) > 0
    ensures var total, weeks := TotalPages(pageCount), PlanWeeks(start, end);
            ProgressPct(page, WeeklyPages(pageCount, start, end), ElapsedWeeks(start, end, end)) >=
            total as real / (total + weeks - 1) as real * 100.0
  {
    var total, weeks := TotalPages(pageCount), PlanWeeks(start, end);
    ElapsedWeeksTracksThePlan(start, end, end, end);
    RoundingCostsLessThanAWeek(pageCount, start, end);
    RoundedShare(total, page, WeeklyPages(pageCount, start, end) * weeks, total + weeks - 1);
  }
}
