/** Generation of sprints and their names, on the Gregorian calendar. (src/features/__init__.py) */
module Sprints {
  import opened Common

  // ---------------------------------------------------------------- the calendar

  // Dates are day ordinals of the proleptic Gregorian calendar (day 1 is the first of January of the year 1), which
  // follows from the leap-year rule alone and has no first or last year.

  predicate Leap(year: int) {
    year % 4 == 0 && (year % 100 != 0 || year % 400 == 0)
  }

  function YearLength(year: int): int {
    if Leap(year) then 366 else 365
  }

  function YearStart(year: int): int
    decreases if year >= 1 then year - 1 else 1 - year
  {
    if year == 1 then 1
    else if year > 1 then YearStart(year - 1) + YearLength(year - 1)
    else YearStart(year + 1) - YearLength(year)
  }

  /** One step further a quotient grows by one exactly at the multiples. */
  lemma QuotientStep(n: int, k: int)
    requires k in {4, 100, 400}
    ensures n / k == (n - 1) / k + if n % k == 0 then 1 else 0
  {
  }

  lemma YearLengthByQuotients(year: int)
    ensures
      YearLength(year) ==
      365 + (year / 4 - (year - 1) / 4) - (year / 100 - (year - 1) / 100) + (year / 400 - (year - 1) / 400)
  {
    QuotientStep(year, 4);
    QuotientStep(year, 100);
    QuotientStep(year, 400);
  }

  /** The Gregorian calendar: a day more every four years, but not every hundred, yet every four hundred. */
  lemma {:induction false} YearStartIs(year: int)
    ensures YearStart(year) == 365 * (year - 1) + (year - 1) / 4 - (year - 1) / 100 + (year - 1) / 400 + 1
    decreases if year >= 1 then year - 1 else 1 - year
  {
    if year > 1 {
      YearStartIs(year - 1);
      YearLengthByQuotients(year - 1);
    } else if year < 1 {
      YearStartIs(year + 1);
      YearLengthByQuotients(year);
    }
  }

  lemma {:induction false} LaterYearStartsLater(a: int, b: int)
    requires a <= b
    ensures YearStart(a) + 365 * (b - a) <= YearStart(b)
    decreases b - a
  {
    if a < b {
      LaterYearStartsLater(a, b - 1);
    }
  }

  /** The year of the date, searched upwards. */
  function YearFrom(date: int, year: int): (y: int)
    requires YearStart(year) <= date
    ensures YearStart(y) <= date < YearStart(y + 1)
    decreases date - YearStart(year)
  {
    if date < YearStart(year + 1) then year else YearFrom(date, year + 1)
  }

  function YearOf(date: int): (y: int)
    ensures YearStart(y) <= date < YearStart(y + 1)
  {
    LaterYearStartsLater(Min(date, 1), 1);
    YearFrom(date, Min(date, 1))
  }

  /** `strftime('%j')` */
  function DayOfYear(date: int): (n: nat)
    ensures 1 <= n <= 366
  {
    date - YearStart(YearOf(date)) + 1
  }

  lemma YearIsMonotone(a: int, b: int)
    requires a <= b
    ensures YearOf(a) <= YearOf(b)
  {
    if YearOf(b) < YearOf(a) {
      LaterYearStartsLater(YearOf(b) + 1, YearOf(a));
    }
  }

  // ---------------------------------------------------------------- configuration and results

  datatype Config = Config(startDate: int, thresholdDays: int, daysPerSprint: int, cycles: nat, offset: int)

  /** The values a sprint's name is formatted from, and its end date. */
  datatype Sprint = Sprint(labelDate: int, number: int, cycle: nat, endDate: int)

  function Cycles(cfg: Config): (c: nat)
    ensures c > 0
  {
    if cfg.cycles == 0 then 1 else cfg.cycles
  }

  /** How far the date a sprint is named after lies behind its end date. */
  function Shift(cfg: Config): int {
    cfg.daysPerSprint * cfg.offset
  }

  /** `n` sprints of `days` each, by repeated addition. */
  function Repeat(n: nat, days: nat): nat {
    if n == 0 then 0 else Repeat(n - 1, days) + days
  }

  lemma {:induction false} RepeatIsProduct(n: nat, days: nat)
    ensures Repeat(n, days) == n * days
  {
    if n > 0 {
      RepeatIsProduct(n - 1, days);
      assert n * days == (n - 1) * days + days;
    }
  }

  lemma {:induction false} RepeatGrows(m: nat, n: nat, days: nat)
    requires m <= n && days > 0
    ensures Repeat(m, days) + (n - m) <= Repeat(n, days)
  {
    if m < n {
      RepeatGrows(m, n - 1, days);
    }
  }

  lemma FewerRepeats(m: nat, n: nat, days: nat)
    requires Repeat(m, days) < Repeat(n, days)
    ensures m < n
  {
    if m >= n && days > 0 {
      RepeatGrows(n, m, days);
    } else if m >= n {
      RepeatIsProduct(m, days);
      RepeatIsProduct(n, days);
    }
  }

  /** The days that share one sprint number. */
  function Window(cfg: Config): (w: int)
    requires cfg.daysPerSprint > 0
    ensures w > 0
  {
    RepeatIsProduct(Cycles(cfg), cfg.daysPerSprint);
    RepeatGrows(0, Cycles(cfg), cfg.daysPerSprint);
    Cycles(cfg) * cfg.daysPerSprint
  }

  function SprintNumber(date: int, window: int): int
    requires window > 0
  {
    CeilDiv(DayOfYear(date), window)
  }

  // ---------------------------------------------------------------- generation

  ghost predicate Spaced(dates: seq<int>, first: int, days: int) {
    (dates != [] ==> dates[0] == first) && forall i :: 0 < i < |dates| ==> dates[i] == dates[i - 1] + days
  }

  lemma {:induction false} SpacedAt(dates: seq<int>, first: int, days: int, i: nat)
    requires Spaced(dates, first, days) && i < |dates|
    ensures dates[i] == first + days * i
  {
    if i > 0 {
      SpacedAt(dates, first, days, i - 1);
      assert days * i == days * (i - 1) + days;
    }
  }

  lemma SpacedShift(dates: seq<int>, first: int, days: int, i: nat, offset: int)
    requires Spaced(dates, first, days) && i < |dates| && 0 <= i + offset < |dates|
    ensures dates[i + offset] == dates[i] + days * offset
  {
    SpacedAt(dates, first, days, i);
    SpacedAt(dates, first, days, i + offset);
    assert days * (i + offset) == days * i + days * offset;
  }

  /** Evenly spaced dates up to and including the first one that is not before `end`. */
  method IterSprintDates(start: int, end: int, days: int, offset: int) returns (dates: seq<int>)
    requires days > 0
    ensures Spaced(dates, start + days * offset, days)
    ensures dates == [] <==> end <= start + days * offset
    ensures forall i :: 0 <= i < |dates| ==> (dates[i] >= end <==> i == |dates| - 1)
  {
    var first := start + days * offset;
    var current := first;
    var k := 0;
    dates := [];
    while current < end
      invariant k == |dates| && Spaced(dates, first, days)
      invariant current == if k == 0 then first else dates[k - 1]
      invariant k > 0 ==> current == first + days * (k - 1) && first < end
      invariant forall i :: 0 <= i < k - 1 ==> dates[i] < end
      decreases end - current, if k == 0 then 1 else 0
    {
      assert k > 0 ==> days * k == days * (k - 1) + days;
      current := first + days * k;
      k := k + 1;
      dates := dates + [current];
    }
  }

  /** The number belongs to the label date; the cycle counts the sprints directly before that have the same
      number. */
  ghost predicate Named(sprints: seq<Sprint>, j: nat, window: int)
    requires window > 0 && j < |sprints|
  {
    && sprints[j].number == SprintNumber(sprints[j].labelDate, window)
    && sprints[j].cycle ==
       if j > 0 && sprints[j].number == sprints[j - 1].number then sprints[j - 1].cycle + 1 else 0
  }

  /** End dates are evenly spaced, and names come from a date `shift` days further on. */
  ghost predicate Generated(sprints: seq<Sprint>, days: int, shift: int, window: int)
    requires window > 0
  {
    && (forall j :: 0 < j < |sprints| ==> sprints[j].endDate == sprints[j - 1].endDate + days)
    && (forall j :: 0 <= j < |sprints| ==> sprints[j].labelDate == sprints[j].endDate + shift)
    && (forall j :: 0 <= j < |sprints| ==> Named(sprints, j, window))
  }

  /** The number of a sprint by the configuration: the windows of the year are `cycles` sprints long, or one sprint
      if no cycles are configured, and the number says in which of them the label date lies. */
  lemma NumberedByWindow(cfg: Config, sprints: seq<Sprint>, j: nat, window: int)
    requires cfg.daysPerSprint > 0 && j < |sprints|
    requires Generated(sprints, cfg.daysPerSprint, Shift(cfg), Window(cfg))
    requires window == if cfg.cycles == 0 then cfg.daysPerSprint else cfg.cycles * cfg.daysPerSprint
    ensures (sprints[j].number - 1) * window < DayOfYear(sprints[j].labelDate) <= sprints[j].number * window
    ensures sprints[j].labelDate == sprints[j].endDate + cfg.offset * cfg.daysPerSprint
  {
    assert Named(sprints, j, Window(cfg));
  }

  lemma GeneratedExtends(sprints: seq<Sprint>, s: Sprint, days: int, shift: int, window: int)
    requires window > 0 && Generated(sprints, days, shift, window)
    requires sprints != [] ==> s.endDate == sprints[|sprints| - 1].endDate + days
    requires s.labelDate == s.endDate + shift && s.number == SprintNumber(s.labelDate, window)
    requires
      var n := |sprints|;
      s.cycle == if n > 0 && s.number == sprints[n - 1].number then sprints[n - 1].cycle + 1 else 0
    ensures Generated(sprints + [s], days, shift, window)
  {
    var all := sprints + [s];
    forall j | 0 <= j < |all|
      ensures Named(all, j, window)
    {
      if j < |sprints| {
        assert Named(sprints, j, window);
      }
    }
  }

  /** The sprints end on the dates whose label date is in the list too. */
  method IterSprints(cfg: Config, today: int) returns (sprints: seq<Sprint>, ghost dates: seq<int>)
    requires cfg.daysPerSprint > 0
    ensures Generated(sprints, cfg.daysPerSprint, Shift(cfg), Window(cfg))
    ensures Spaced(dates, cfg.startDate + Shift(cfg), cfg.daysPerSprint)
    ensures dates == [] <==> today + cfg.thresholdDays <= cfg.startDate + Shift(cfg)
    ensures forall i :: 0 <= i < |dates| ==> (dates[i] >= today + cfg.thresholdDays <==> i == |dates| - 1)
    ensures |sprints| == Max(0, |dates| - (if cfg.offset < 0 then -cfg.offset else cfg.offset))
    ensures forall j :: 0 <= j < |sprints| ==> sprints[j].endDate == dates[j + Max(0, -cfg.offset)]
  {
    var all := IterSprintDates(cfg.startDate, today + cfg.thresholdDays, cfg.daysPerSprint, cfg.offset);
    dates := all;
    sprints := NameSprints(all, cfg.daysPerSprint, cfg.offset, Window(cfg), cfg.startDate + Shift(cfg));
  }

  method NameSprints(dates: seq<int>, days: int, offset: int, window: int, ghost first: int)
    returns (sprints: seq<Sprint>)
    requires window > 0 && Spaced(dates, first, days)
    ensures Generated(sprints, days, days * offset, window)
    ensures |sprints| == Max(0, |dates| - (if offset < 0 then -offset else offset))
    ensures forall j :: 0 <= j < |sprints| ==> sprints[j].endDate == dates[j + Max(0, -offset)]
  {
    sprints := [];
    var last: Option<int> := None;
    var cycle := 0;
    ghost var skipped, shift := Max(0, -offset), days * offset;
    for idx := 0 to |dates|
      invariant Generated(sprints, days, shift, window)
      invariant |sprints| == Max(0, Min(idx, |dates| - Max(0, offset)) - skipped)
      invariant forall j :: 0 <= j < |sprints| ==> sprints[j].endDate == dates[j + skipped]
      invariant sprints == [] ==> last == None && cycle == 0
      invariant sprints != [] ==> last == Some(sprints[|sprints| - 1].number) && cycle == sprints[|sprints| - 1].cycle
    {
      var effective := idx + offset;
      if 0 <= effective < |dates| {
        SpacedShift(dates, first, days, idx, offset);
        var number := SprintNumber(dates[effective], window);
        if Some(number) == last {
          cycle := cycle + 1;
        } else {
          cycle := 0;
          last := Some(number);
        }
        var sprint := Sprint(dates[effective], number, cycle, dates[idx]);
        GeneratedExtends(sprints, sprint, days, shift, window);
        sprints := sprints + [sprint];
      }
    }
  }

  /** Without a positive offset the end dates are exactly `startDate`, `startDate + daysPerSprint`, ... */
  method IterSprintsFromStart(cfg: Config, today: int) returns (sprints: seq<Sprint>)
    requires cfg.daysPerSprint > 0 && cfg.offset <= 0
    ensures Generated(sprints, cfg.daysPerSprint, Shift(cfg), Window(cfg))
    ensures sprints != [] ==> sprints[0].endDate == cfg.startDate
    ensures
      forall j :: 0 <= j < |sprints| ==> (sprints[j].endDate >= today + cfg.thresholdDays <==> j == |sprints| - 1)
    ensures
      sprints == [] <==>
      today + cfg.thresholdDays <= cfg.startDate - (if cfg.offset == 0 then 0 else cfg.daysPerSprint)
  {
    ghost var dates;
    sprints, dates := IterSprints(cfg, today);
    StartsAtStart(dates, cfg.startDate, cfg.daysPerSprint, cfg.offset, today + cfg.thresholdDays);
  }

  lemma StartsAtStart(dates: seq<int>, start: int, days: int, offset: int, end: int)
    requires days > 0 && offset <= 0
    requires Spaced(dates, start + days * offset, days)
    requires dates == [] <==> end <= start + days * offset
    requires forall i :: 0 <= i < |dates| ==> (dates[i] >= end <==> i == |dates| - 1)
    ensures |dates| > -offset ==> dates[-offset] == start
    ensures |dates| <= -offset <==> end <= start - (if offset == 0 then 0 else days)
  {
    var n := |dates|;
    if offset == 0 {
    } else if n == 0 {
      StepsAway(days, offset);
    } else {
      SpacedAt(dates, start + days * offset, days, n - 1);
      StepsAway(days, n - 1 + offset);
      assert days * offset + days * (n - 1) == days * (n - 1 + offset);
      assert n > 1 ==> dates[n - 2] + days == dates[n - 1];
      if n > -offset {
        SpacedAt(dates, start + days * offset, days, -offset);
      }
    }
  }

  lemma StepsAway(days: int, k: int)
    requires days > 0
    ensures k >= 0 ==> days * k >= 0
    ensures k < 0 ==> days * k <= -days
  {
    if k >= 0 {
      RepeatIsProduct(k, days);
    } else {
      RepeatIsProduct(-k, days);
      RepeatGrows(1, -k, days);
      assert Repeat(1, days) == days;
    }
  }

  // ---------------------------------------------------------------- labels

  /** What tells sprints apart by name. */
  datatype Label = Label(year: int, number: int, cycle: nat)

  function LabelOf(s: Sprint): Label {
    Label(YearOf(s.labelDate), s.number, s.cycle)
  }

  predicate LabelLess(a: Label, b: Label) {
    a.year < b.year || (a.year == b.year && (a.number < b.number || (a.number == b.number && a.cycle < b.cycle)))
  }

  lemma CeilDivMonotone(a: int, b: int, step: int)
    requires 0 < step && a <= b
    ensures CeilDiv(a, step) <= CeilDiv(b, step)
  {
    var p, q := CeilDiv(a, step), CeilDiv(b, step);
    StepsAway(step, p - 1 - q);
    assert step * (p - 1 - q) == (p - 1) * step - q * step;
  }

  lemma NeighbourLabelsIncrease(sprints: seq<Sprint>, days: int, shift: int, window: int, j: nat)
    requires days > 0 && window > 0 && Generated(sprints, days, shift, window) && 0 < j < |sprints|
    ensures LabelLess(LabelOf(sprints[j - 1]), LabelOf(sprints[j]))
  {
    var a, b := sprints[j - 1], sprints[j];
    assert Named(sprints, j - 1, window) && Named(sprints, j, window);
    assert a.labelDate + days == b.labelDate;
    YearIsMonotone(a.labelDate, b.labelDate);
    if YearOf(a.labelDate) == YearOf(b.labelDate) {
      CeilDivMonotone(DayOfYear(a.labelDate), DayOfYear(b.labelDate), window);
    }
  }

  function Labels(sprints: seq<Sprint>): seq<Label> {
    seq(|sprints|, i requires 0 <= i < |sprints| => LabelOf(sprints[i]))
  }

  lemma {:induction false} NeighboursSuffice(labels: seq<Label>, i: nat, j: nat)
    requires i < j < |labels| && forall k :: 0 < k < |labels| ==> LabelLess(labels[k - 1], labels[k])
    ensures LabelLess(labels[i], labels[j])
    decreases j
  {
    assert LabelLess(labels[j - 1], labels[j]);
    if i < j - 1 {
      NeighboursSuffice(labels, i, j - 1);
    }
  }

  /** (year, number, cycle) strictly increases over everything generated, so no label repeats. */
  lemma LabelsIncrease(sprints: seq<Sprint>, cfg: Config, i: nat, j: nat)
    requires cfg.daysPerSprint > 0 && i < j < |sprints|
    requires Generated(sprints, cfg.daysPerSprint, Shift(cfg), Window(cfg))
    ensures LabelLess(LabelOf(sprints[i]), LabelOf(sprints[j]))
  {
    var labels := Labels(sprints);
    forall k | 0 < k < |labels|
      ensures LabelLess(labels[k - 1], labels[k])
    {
      NeighbourLabelsIncrease(sprints, cfg.daysPerSprint, Shift(cfg), Window(cfg), k);
      assert labels[k - 1] == LabelOf(sprints[k - 1]) && labels[k] == LabelOf(sprints[k]);
    }
    NeighboursSuffice(labels, i, j);
  }

  lemma OneWindow(n: int, step: int)
    requires 0 < n <= 366 && step > 0
    ensures n <= step <==> CeilDiv(n, step) == 1
  {
    var r := CeilDiv(n, step);
    StepsAway(step, r - 2);
    assert step * (r - 2) == (r - 1) * step - step;
    StepsAway(step, r);
  }

  /** A sprint that ends in a later year than the one before it is in the first window of that year. */
  lemma NextYearBegins(a: int, days: int)
    requires 0 < days <= 365 && YearOf(a) != YearOf(a + days)
    ensures DayOfYear(a + days) <= days && DayOfYear(a) + days > 365
  {
    var y, y' := YearOf(a), YearOf(a + days);
    YearIsMonotone(a, a + days);
    LaterYearStartsLater(y, y + 1);
    LaterYearStartsLater(y + 1, y');
    assert y' == y + 1;
  }

  /** Consecutive sprints with one number lie in one year once the window leaves room for one more sprint. */
  lemma RunStaysInYear(a: int, days: int, window: int)
    requires 0 < days <= window && window + days <= 365
    requires SprintNumber(a, window) == SprintNumber(a + days, window)
    ensures YearOf(a) == YearOf(a + days) && DayOfYear(a + days) == DayOfYear(a) + days
  {
    if YearOf(a) != YearOf(a + days) {
      NextYearBegins(a, days);
      OneWindow(DayOfYear(a), window);
      OneWindow(DayOfYear(a + days), window);
      assert false;
    }
  }

  function DaysOfYear(sprints: seq<Sprint>): seq<int> {
    seq(|sprints|, i requires 0 <= i < |sprints| => DayOfYear(sprints[i].labelDate))
  }

  /** Within a run of one number the days of the year advance by one sprint each. */
  ghost predicate RunsAdvance(sprints: seq<Sprint>, days: int, dayAt: seq<int>) {
    && |dayAt| == |sprints|
    && forall j :: 0 < j < |sprints| && sprints[j].number == sprints[j - 1].number ==> dayAt[j] == dayAt[j - 1] + days
  }

  lemma RunsAdvanceInYear(sprints: seq<Sprint>, days: int, shift: int, window: int)
    requires 0 < days <= window && window + days <= 365 && Generated(sprints, days, shift, window)
    ensures RunsAdvance(sprints, days, DaysOfYear(sprints))
  {
    forall j | 0 < j < |sprints| && sprints[j].number == sprints[j - 1].number
      ensures DayOfYear(sprints[j].labelDate) == DayOfYear(sprints[j - 1].labelDate) + days
    {
      assert Named(sprints, j, window) && Named(sprints, j - 1, window);
      assert sprints[j].labelDate == sprints[j - 1].labelDate + days;
      RunStaysInYear(sprints[j - 1].labelDate, days, window);
    }
    assert |DaysOfYear(sprints)| == |sprints|;
  }

  /** The run of one number that ends at a sprint began `cycle` sprints earlier. */
  lemma {:induction false} RunBegins(sprints: seq<Sprint>, days: int, window: int, dayAt: seq<int>, j: nat)
    requires 0 < days && window > 0 && j < |sprints| && RunsAdvance(sprints, days, dayAt)
    requires forall i :: 0 <= i < |sprints| ==> Named(sprints, i, window)
    ensures sprints[j].cycle <= j
    ensures
      var first := j - sprints[j].cycle;
      sprints[first].number == sprints[j].number && dayAt[first] + Repeat(sprints[j].cycle, days) == dayAt[j]
    decreases j
  {
    assert Named(sprints, j, window);
    if j > 0 && sprints[j].number == sprints[j - 1].number {
      RunBegins(sprints, days, window, dayAt, j - 1);
    }
  }

  lemma SameNumberIsNear(m: int, n: int, window: int)
    requires window > 0 && CeilDiv(m, window) == CeilDiv(n, window)
    ensures n - m < window
  {
    var r := CeilDiv(m, window);
    assert (r - 1) * window == r * window - window;
  }

  /** A sprint's day of the year and the first one's of its run belong to one number, so they are close. */
  lemma RunIsShort(sprints: seq<Sprint>, days: int, shift: int, window: int, j: nat)
    requires 0 < days <= window && window + days <= 365 && Generated(sprints, days, shift, window) && j < |sprints|
    ensures Repeat(sprints[j].cycle, days) < window
  {
    RunsAdvanceInYear(sprints, days, shift, window);
    RunBegins(sprints, days, window, DaysOfYear(sprints), j);
    var first := j - sprints[j].cycle;
    assert Named(sprints, j, window) && Named(sprints, first, window);
    SameNumberIsNear(DaysOfYear(sprints)[first], DaysOfYear(sprints)[j], window);
  }

  /** The cycle index stays below the configured number of cycles (0 read as 1), across year boundaries and
      leap years, provided one sprint more than the cycles fits into 365 days. */
  lemma CyclesAreBounded(sprints: seq<Sprint>, cfg: Config, j: nat)
    requires cfg.daysPerSprint > 0 && Window(cfg) + cfg.daysPerSprint <= 365
    requires Generated(sprints, cfg.daysPerSprint, Shift(cfg), Window(cfg)) && j < |sprints|
    ensures sprints[j].cycle < Cycles(cfg)
  {
    var days, c := cfg.daysPerSprint, Cycles(cfg);
    RepeatIsProduct(c, days);
    RepeatGrows(1, c, days);
    assert Repeat(1, days) == days;
    RunIsShort(sprints, days, Shift(cfg), Window(cfg), j);
    FewerRepeats(sprints[j].cycle, c, days);
  }

  /** With at most 26 such cycles the year, the number and the cycle's letter already tell all sprints apart. */
  lemma LettersTellApart(sprints: seq<Sprint>, cfg: Config, i: nat, j: nat)
    requires cfg.daysPerSprint > 0 && Window(cfg) + cfg.daysPerSprint <= 365 && Cycles(cfg) <= 26
    requires Generated(sprints, cfg.daysPerSprint, Shift(cfg), Window(cfg)) && i < j < |sprints|
    ensures
      var a, b := LabelOf(sprints[i]), LabelOf(sprints[j]);
      a.year != b.year || a.number != b.number || a.cycle % 26 != b.cycle % 26
  {
    LabelsIncrease(sprints, cfg, i, j);
    CyclesAreBounded(sprints, cfg, i);
    CyclesAreBounded(sprints, cfg, j);
    LettersDiffer(LabelOf(sprints[i]), LabelOf(sprints[j]));
  }

  lemma LettersDiffer(a: Label, b: Label)
    requires LabelLess(a, b) && a.cycle < 26 && b.cycle < 26
    ensures a.year != b.year || a.number != b.number || a.cycle % 26 != b.cycle % 26
  {
  }

  /** Once a window covers a leap year, every sprint has number 1 and its cycle runs on from year to year. */
  lemma {:induction false} LongWindowsRunOn(sprints: seq<Sprint>, cfg: Config, j: nat)
    requires cfg.daysPerSprint > 0 && Window(cfg) >= 366
    requires Generated(sprints, cfg.daysPerSprint, Shift(cfg), Window(cfg)) && j < |sprints|
    ensures sprints[j].number == 1 && sprints[j].cycle == j
    decreases j
  {
    assert Named(sprints, j, Window(cfg));
    OneWindow(DayOfYear(sprints[j].labelDate), Window(cfg));
    if j > 0 {
      LongWindowsRunOn(sprints, cfg, j - 1);
    }
  }

  /** A year of 365 days whose last window has no room for one more sprint: the sprints that fill its first window and
      the one after them, which may end in the next year, all have number 1. */
  lemma FirstNumberRunsOn(year: int, cfg: Config, j: nat)
    requires cfg.daysPerSprint > 0 && Window(cfg) + cfg.daysPerSprint > 365 && !Leap(year) && j <= Cycles(cfg)
    ensures SprintNumber(YearStart(year) - 1 + Repeat(j + 1, cfg.daysPerSprint), Window(cfg)) == 1
  {
    var days, window := cfg.daysPerSprint, Window(cfg);
    var past := Repeat(j + 1, days);
    RepeatIsProduct(Cycles(cfg), days);
    RepeatGrows(1, j + 1, days);
    assert Repeat(1, days) == days;
    var date := YearStart(year) - 1 + past;
    if window < 366 {
      if j < Cycles(cfg) {
        RepeatIncreases(j + 1, Cycles(cfg), days);
        YearIs(date, year);
      } else if past > 365 {
        YearIs(date, year + 1);
      } else {
        YearIs(date, year);
      }
      assert DayOfYear(date) <= window;
    }
    OneWindow(DayOfYear(date), window);
  }

  lemma {:induction false} RepeatIncreases(m: nat, n: nat, days: nat)
    requires m <= n
    ensures Repeat(m, days) <= Repeat(n, days)
  {
    if m < n {
      RepeatIncreases(m, n - 1, days);
    }
  }

  lemma YearIs(date: int, year: int)
    requires YearStart(year) <= date < YearStart(year + 1)
    ensures YearOf(date) == year
  {
    if YearOf(date) < year {
      LaterYearStartsLater(YearOf(date) + 1, year);
    } else if YearOf(date) > year {
      LaterYearStartsLater(year + 1, YearOf(date));
    }
  }

  /** Without room for one more sprint the cycle overruns: of the sprints named after day `daysPerSprint` of a year of
      365 days and the days that follow evenly, number `Cycles` has that very cycle. */
  lemma {:induction false} CyclesOverrun(sprints: seq<Sprint>, cfg: Config, year: int, j: nat)
    requires cfg.daysPerSprint > 0 && Window(cfg) + cfg.daysPerSprint > 365 && !Leap(year)
    requires Generated(sprints, cfg.daysPerSprint, Shift(cfg), Window(cfg)) && j < |sprints| && j <= Cycles(cfg)
    requires sprints[0].labelDate == YearStart(year) - 1 + cfg.daysPerSprint
    ensures sprints[j].labelDate == YearStart(year) - 1 + Repeat(j + 1, cfg.daysPerSprint)
    ensures sprints[j].number == 1 && sprints[j].cycle == j
    decreases j
  {
    assert Named(sprints, j, Window(cfg));
    FirstNumberRunsOn(year, cfg, j);
    if j > 0 {
      CyclesOverrun(sprints, cfg, year, j - 1);
    } else {
      assert Repeat(1, cfg.daysPerSprint) == cfg.daysPerSprint;
    }
  }

  /** The sprints named after the given date and the ones that follow evenly. */
  ghost function SprintsFrom(cfg: Config, first: int, n: nat): (sprints: seq<Sprint>)
    requires cfg.daysPerSprint > 0
    ensures |sprints| == n && Generated(sprints, cfg.daysPerSprint, Shift(cfg), Window(cfg))
    ensures n > 0 ==> sprints[0].labelDate == first
    ensures n > 0 ==> sprints[n - 1].labelDate == first + Repeat(n - 1, cfg.daysPerSprint)
  {
    if n == 0 then []
    else
      var before := SprintsFrom(cfg, first, n - 1);
      var date := first + Repeat(n - 1, cfg.daysPerSprint);
      var number := SprintNumber(date, Window(cfg));
      var cycle := if n > 1 && before[n - 2].number == number then before[n - 2].cycle + 1 else 0;
      var sprint := Sprint(date, number, cycle, date - Shift(cfg));
      GeneratedExtends(before, sprint, cfg.daysPerSprint, Shift(cfg), Window(cfg));
      before + [sprint]
  }

  /** Whatever is generated stays below the configured number of cycles, wherever it starts: the start date of the
      configuration plays no part. */
  ghost predicate CyclesNeverOverrun(cfg: Config)
    requires cfg.daysPerSprint > 0
  {
    forall sprints: seq<Sprint>, j ::
      Generated(sprints, cfg.daysPerSprint, Shift(cfg), Window(cfg)) && 0 <= j < |sprints| ==>
      sprints[j].cycle < Cycles(cfg)
  }

  /** The cycle index stays below the number of cycles for every start date exactly if one sprint more than the cycles
      fits into 365 days. */
  lemma CycleBoundIsExact(cfg: Config)
    requires cfg.daysPerSprint > 0
    ensures CyclesNeverOverrun(cfg) <==> Window(cfg) + cfg.daysPerSprint <= 365
  {
    if Window(cfg) + cfg.daysPerSprint <= 365 {
      forall sprints: seq<Sprint>, j |
        Generated(sprints, cfg.daysPerSprint, Shift(cfg), Window(cfg)) && 0 <= j < |sprints|
        ensures sprints[j].cycle < Cycles(cfg)
      {
        CyclesAreBounded(sprints, cfg, j);
      }
    } else {
      var n := Cycles(cfg);
      var sprints := SprintsFrom(cfg, YearStart(1) - 1 + cfg.daysPerSprint, n + 1);
      CyclesOverrun(sprints, cfg, 1, n);
    }
  }
}
