/** The fixed-calendar schedule: `compute_next_run` of backend/app/services/access_reviews.py.
    Instants are microseconds since the start of 1 January of year 1, as a Python datetime counts them. */
module Schedule {
  import opened Calendar

  const SECOND := 1_000_000
  const MINUTE := 60_000_000
  const HOUR := 3_600_000_000
  const DAY := 86_400_000_000

  datatype TimeOfDay = TimeOfDay(hour: nat, minute: nat) {
    predicate Valid() { hour <= 23 && minute <= 59 }
  }

  /** A UTC instant that any zone can still express in local time. */
  type Instant = t: int | DAY <= t witness DAY

  /** The last instant Python can express: the end of year 9999. */
  const LAST := 3_652_059 * DAY - 1

  /** A reading of the clock: an instant before year 9966, so that the months the schedule looks at can be expressed. */
  type Clock = t: Instant | t < 3_639_000 * DAY witness DAY

  /** A time zone: the offset in force at a UTC instant, and the offset given to a wall-clock time. Both lie
      strictly within one day, as Python demands of every zone. */
  datatype Offsets = Offsets(utcOffset: int -> int, wallOffset: int -> int) {
    ghost predicate Valid() {
      && (forall t :: -DAY < utcOffset(t) < DAY)
      && (forall t :: -DAY < wallOffset(t) < DAY)
    }

    function ToLocal(t: int): int { t + utcOffset(t) }

    function ToUtc(wall: int): int { wall - wallOffset(wall) }

    ghost predicate Fixed(offset: int) {
      && -DAY < offset < DAY
      && (forall t :: utcOffset(t) == offset)
      && (forall t :: wallOffset(t) == offset)
    }
  }

  type Zone = o: Offsets | o.Valid() witness Offsets(t => 0, t => 0)

  /** One recurring slot: a day of the month (clamped to short months), a time, and a step in months. */
  datatype Recurring = Recurring(day: int, time: TimeOfDay, every: int) {
    predicate Valid() { 1 <= day <= 31 && time.Valid() && 1 <= every }
  }

  type Timing = r: Recurring | r.Valid() witness Recurring(1, TimeOfDay(0, 0), 1)

  function Min(a: int, b: int): int { if a < b then a else b }

  /** The day of the slot of month m: its day of the month, or the last day of a shorter month. */
  function SlotDay(day: int, m: nat): int {
    MonthStart(m) + Min(day, MonthLength(m)) - 1
  }

  /** The wall-clock time of the slot of month m. */
  function Slot(g: Timing, m: nat): int
  {
    SlotDay(g.day, m) * DAY + (g.time.hour * 60 + g.time.minute) * MINUTE
  }

  /** The UTC instant of the slot of month m. */
  function SlotUtc(z: Zone, g: Timing, m: nat): int
  {
    z.ToUtc(Slot(g, m))
  }

  function MonthOf(wall: int): (m: nat)
    requires 0 <= wall
    ensures MonthStart(m) * DAY <= wall < MonthStart(m + 1) * DAY
  {
    MonthOfDay(wall / DAY)
  }

  lemma SlotInMonth(g: Timing, m: nat)
    ensures MonthStart(m) * DAY <= Slot(g, m) < MonthStart(m + 1) * DAY
  {
    var d := SlotDay(g.day, m);
    assert MonthStart(m) <= d < MonthStart(m + 1);
    assert (g.time.hour * 60 + g.time.minute) * MINUTE < DAY;
  }

  /** The slot of month m is in month m, on the scheduled day or on the last day of a shorter month, at the scheduled
      time. */
  lemma SlotDate(g: Timing, m: nat)
    ensures 0 <= Slot(g, m) && MonthOf(Slot(g, m)) == m
    ensures Slot(g, m) / DAY - MonthStart(m) + 1 == Min(g.day, MonthStart(m + 1) - MonthStart(m))
    ensures Slot(g, m) % DAY == g.time.hour * HOUR + g.time.minute * MINUTE
  {
    SlotInMonth(g, m);
    MonthOfDayUnique(Slot(g, m) / DAY, m);
  }

  /** Slots of successive months are at least 28 days apart, across leap years and clamping. */
  lemma {:induction false} SlotDaysSpread(day: int, m: nat, n: nat)
    requires 1 <= day <= 31 && m <= n
    ensures SlotDay(day, n) >= SlotDay(day, m) + 28 * (n - m)
  {
    hide DaysIn, YearOf, MonthInYear;
    if m < n {
      SlotDaysSpread(day, m, n - 1);
      assert MonthStart(n) == MonthStart(n - 1) + MonthLength(n - 1);
    }
  }

  lemma SlotsSpread(g: Timing, m: nat, n: nat)
    requires m <= n
    ensures Slot(g, n) >= Slot(g, m) + 28 * DAY * (n - m)
  {
    hide SlotDay;
    SlotDaysSpread(g.day, m, n);
  }

  /** In UTC the order of the slots is the order of their months, whatever offsets the zone gives them. */
  lemma UtcSlotsIncrease(z: Zone, g: Timing, m: nat, n: nat)
    requires m < n
    ensures SlotUtc(z, g, m) < SlotUtc(z, g, n)
  {
    hide Slot;
    SlotsSpread(g, m, n);
    assert -DAY < z.wallOffset(Slot(g, m)) < DAY && -DAY < z.wallOffset(Slot(g, n)) < DAY;
  }

  /** A slot two or more months after the month of `after` is still ahead, in every zone. */
  lemma TwoMonthsOnIsAhead(z: Zone, g: Timing, after: int, m: nat, n: nat)
    requires 0 <= z.ToLocal(after)
    requires m == MonthOf(z.ToLocal(after)) && m + 2 <= n
    ensures after < SlotUtc(z, g, n)
  {
    hide Slot, MonthOf;
    assert z.ToLocal(after) < MonthStart(m + 1) * DAY;
    SlotInMonth(g, m + 1);
    SlotsSpread(g, m + 1, n);
    assert -DAY < z.wallOffset(Slot(g, n)) < DAY && -DAY < z.utcOffset(after) < DAY;
  }

  /** The first slot after `after` among months m, m + every, m + 2 every, ... */
  function FirstSlotMonth(z: Zone, g: Timing, after: int, m: nat): (r: nat)
    requires 0 <= z.ToLocal(after)
    ensures after < SlotUtc(z, g, r)
    decreases MonthOf(z.ToLocal(after)) + 2 - m
  {
    if after < SlotUtc(z, g, m) then m
    else
      assert m < MonthOf(z.ToLocal(after)) + 2 by {
        if MonthOf(z.ToLocal(after)) + 2 <= m {
          TwoMonthsOnIsAhead(z, g, after, MonthOf(z.ToLocal(after)), m);
        }
      }
      FirstSlotMonth(z, g, after, m + g.every)
  }

  function NextRun(z: Zone, g: Timing, after: Instant): (r: Instant)
    ensures after < r
  {
    SlotUtc(z, g, FirstSlotMonth(z, g, after, MonthOf(z.ToLocal(after))))
  }

  /** The month index of a year and a month of the year. */
  function MonthIndex(year: int, month: int): int { (year - 1) * 12 + month - 1 }

  /** Adding months and carrying whole years moves the month index by as many months. */
  lemma CarryYears(year: int, month: int, every: int)
    requires 1 <= month <= 12 && 0 <= every
    ensures 1 <= (month + every - 1) % 12 + 1 <= 12
    ensures MonthIndex(year + (month + every - 1) / 12, (month + every - 1) % 12 + 1) == MonthIndex(year, month) + every
  {
  }

  /** The month k steps of `every` months after month m. */
  function Stepped(m: nat, every: int, k: nat): (r: nat)
    requires 1 <= every
    ensures r == m + k * every && m + k <= r
  {
    if k == 0 then m else Stepped(m, every, k - 1) + every
  }

  lemma SearchStep(z: Zone, g: Timing, after: int, m: nat)
    requires 0 <= z.ToLocal(after)
    ensures FirstSlotMonth(z, g, after, m)
            == if after < SlotUtc(z, g, m) then m else FirstSlotMonth(z, g, after, m + g.every)
  {
  }

  /** Slots that are behind are stepped over. */
  lemma {:induction false} StepsOverSlotsBehind(z: Zone, g: Timing, after: int, m: nat, k: nat)
    requires 0 <= z.ToLocal(after)
    requires forall j: nat :: j < k ==> SlotUtc(z, g, Stepped(m, g.every, j)) <= after
    ensures FirstSlotMonth(z, g, after, m) == FirstSlotMonth(z, g, after, Stepped(m, g.every, k))
  {
    hide SlotUtc;
    if k > 0 {
      StepsOverSlotsBehind(z, g, after, m, k - 1);
      SearchStep(z, g, after, Stepped(m, g.every, k - 1));
    }
  }

  /** `compute_next_run`: starts at the month of `after` in local time and steps whole months, carrying the year,
      until the slot is strictly ahead. In every zone it takes at most two steps, and none too many. */
  method ComputeNextRun(z: Zone, g: Timing, after: Instant) returns (next: Instant, ghost steps: nat)
    ensures next == NextRun(z, g, after)
    ensures steps <= 2 && next == SlotUtc(z, g, Stepped(MonthOf(z.ToLocal(after)), g.every, steps))
    ensures forall k: nat :: k < steps ==> SlotUtc(z, g, Stepped(MonthOf(z.ToLocal(after)), g.every, k)) <= after
  {
    var start := MonthOf(z.ToLocal(after));
    ghost var at := start;
    var year, month := YearOf(start), MonthInYear(start);
    assert MonthIndex(year, month) == at;
    var candidate := SlotUtc(z, g, MonthIndex(year, month));
    steps := 0;
    while candidate <= after
      invariant 1 <= month <= 12 && steps <= 2
      invariant MonthIndex(year, month) == at == Stepped(start, g.every, steps)
      invariant candidate == SlotUtc(z, g, at)
      invariant forall k: nat :: k < steps ==> SlotUtc(z, g, Stepped(start, g.every, k)) <= after
      decreases 2 - steps
    {
      if steps == 2 {
        assert start + 2 <= at;
        TwoMonthsOnIsAhead(z, g, after, start, at);
        assert false;
      }
      CarryYears(year, month, g.every);
      month := month + g.every;
      year := year + (month - 1) / 12;
      month := (month - 1) % 12 + 1;
      at := at + g.every;
      candidate := SlotUtc(z, g, MonthIndex(year, month));
      steps := steps + 1;
    }
    StepsOverSlotsBehind(z, g, after, start, steps);
    next := candidate;
  }

  /** The next run is a slot of the cycle m, m + every, m + 2 every, ... that starts in the month of `after`, it is
      strictly ahead, and no slot of the cycle that is strictly ahead comes before it. */
  lemma NextRunIsLeast(z: Zone, g: Timing, after: Instant)
    ensures after < NextRun(z, g, after)
    ensures exists k: nat :: NextRun(z, g, after) == SlotUtc(z, g, Stepped(MonthOf(z.ToLocal(after)), g.every, k))
    ensures forall k: nat :: after < SlotUtc(z, g, Stepped(MonthOf(z.ToLocal(after)), g.every, k))
              ==> NextRun(z, g, after) <= SlotUtc(z, g, Stepped(MonthOf(z.ToLocal(after)), g.every, k))
  {
    var m := MonthOf(z.ToLocal(after));
    var n := FirstAhead(z, g, after, m, 0);
    forall k: nat | after < SlotUtc(z, g, Stepped(m, g.every, k))
      ensures NextRun(z, g, after) <= SlotUtc(z, g, Stepped(m, g.every, k))
    {
      if k > n {
        SteppedIncreases(m, g.every, n, k);
        UtcSlotsIncrease(z, g, Stepped(m, g.every, n), Stepped(m, g.every, k));
      }
    }
  }

  /** How many steps the search takes, counted on from j slots known to be behind. */
  lemma {:induction false} FirstAhead(z: Zone, g: Timing, after: int, m: nat, j: nat) returns (n: nat)
    requires 0 <= z.ToLocal(after) && m == MonthOf(z.ToLocal(after)) && j <= 2
    requires forall i: nat :: i < j ==> SlotUtc(z, g, Stepped(m, g.every, i)) <= after
    ensures n <= 2 && FirstSlotMonth(z, g, after, m) == Stepped(m, g.every, n)
    ensures forall i: nat :: i < n ==> SlotUtc(z, g, Stepped(m, g.every, i)) <= after
    decreases 3 - j
  {
    if after < SlotUtc(z, g, Stepped(m, g.every, j)) {
      StepsOverSlotsBehind(z, g, after, m, j);
      n := j;
    } else {
      if 2 <= j {
        TwoMonthsOnIsAhead(z, g, after, m, Stepped(m, g.every, j));
      }
      n := FirstAhead(z, g, after, m, j + 1);
    }
  }

  lemma {:induction false} SteppedIncreases(m: nat, every: int, j: nat, k: nat)
    requires 1 <= every && j < k
    ensures Stepped(m, every, j) < Stepped(m, every, k)
  {
    if j < k - 1 {
      SteppedIncreases(m, every, j, k - 1);
    }
  }

  /** With one fixed offset the slot of any later month is already ahead. */
  lemma FixedZoneNextMonthIsAhead(z: Zone, g: Timing, after: int, n: nat)
    requires 0 <= z.ToLocal(after)
    requires exists offset :: z.Fixed(offset)
    requires MonthOf(z.ToLocal(after)) < n
    ensures after < SlotUtc(z, g, n)
  {
    var offset :| z.Fixed(offset);
    MonthStartsSpread(MonthOf(z.ToLocal(after)) + 1, n);
    SlotInMonth(g, n);
    assert z.utcOffset(after) == offset && z.wallOffset(Slot(g, n)) == offset;
  }

  /** With one fixed offset the slots of earlier months are all behind, so the next run is the least slot ahead of
      the whole cycle in both directions, and the search steps at most once. */
  lemma FixedZoneEarlierMonthsAreBehind(z: Zone, g: Timing, after: Instant, n: nat)
    requires exists offset :: z.Fixed(offset)
    requires n < MonthOf(z.ToLocal(after))
    ensures SlotUtc(z, g, n) <= after
  {
    var offset :| z.Fixed(offset);
    MonthStartsSpread(n + 1, MonthOf(z.ToLocal(after)));
    SlotInMonth(g, n);
    assert z.utcOffset(after) == offset && z.wallOffset(Slot(g, n)) == offset;
  }

  lemma FixedZoneStepsAtMostOnce(z: Zone, g: Timing, after: Instant)
    requires exists offset :: z.Fixed(offset)
    ensures var m := MonthOf(z.ToLocal(after));
            NextRun(z, g, after) == SlotUtc(z, g, if after < SlotUtc(z, g, m) then m else m + g.every)
  {
    hide Slot, FirstSlotMonth, MonthOf;
    var m := MonthOf(z.ToLocal(after));
    FixedZoneNextMonthIsAhead(z, g, after, m + g.every);
    SearchStep(z, g, after, m);
    SearchStep(z, g, after, m + g.every);
  }

  /** The local time read back from the slot of month n falls in month n again. */
  predicate KeepsMonth(z: Zone, g: Timing, n: nat)
  {
    0 <= z.ToLocal(SlotUtc(z, g, n)) && MonthOf(z.ToLocal(SlotUtc(z, g, n))) == n
  }

  /** The run reached from `first` after k more runs. */
  function NthRun(z: Zone, g: Timing, first: Instant, k: nat): Instant
  {
    if k == 0 then first else NextRun(z, g, NthRun(z, g, first, k - 1))
  }

  lemma FixedZoneKeepsMonths(z: Zone, g: Timing, n: nat)
    requires exists offset :: z.Fixed(offset)
    ensures KeepsMonth(z, g, n)
  {
    var offset :| z.Fixed(offset);
    assert z.utcOffset(SlotUtc(z, g, n)) == offset && z.wallOffset(Slot(g, n)) == offset;
    SlotDate(g, n);
  }

  /** A slot's local time is less than two days from the slot itself, so it reads back at most one month away. */
  lemma ReadsBackNearby(z: Zone, g: Timing, m: nat)
    requires DAY <= SlotUtc(z, g, m)
    ensures m - 1 <= MonthOf(z.ToLocal(SlotUtc(z, g, m))) <= m + 1
  {
    hide Slot, MonthLength;
    var local := z.ToLocal(SlotUtc(z, g, m));
    var r := MonthOf(local);
    assert -DAY < z.wallOffset(Slot(g, m)) < DAY && -DAY < z.utcOffset(SlotUtc(z, g, m)) < DAY;
    SlotInMonth(g, m);
    if r < m - 1 {
      MonthStartsSpread(r + 1, m - 1);
      MonthStartsSpread(m - 1, m);
    } else if m + 1 < r {
      MonthStartsSpread(m + 1, m + 2);
      MonthStartsSpread(m + 2, r);
    }
  }

  /** Exactly when one run leads to the slot one step on: the schedule is monthly, or the slot reads back into its
      own month. Otherwise the slot lies where local time is skipped across the end of a month. */
  lemma StepKeptExactly(z: Zone, g: Timing, m: nat)
    requires DAY <= SlotUtc(z, g, m)
    ensures NextRun(z, g, SlotUtc(z, g, m)) == SlotUtc(z, g, m + g.every) <==> g.every == 1 || KeepsMonth(z, g, m)
  {
    hide Slot, FirstSlotMonth, MonthOf, SlotUtc;
    var after := SlotUtc(z, g, m);
    var r := MonthOf(z.ToLocal(after));
    ReadsBackNearby(z, g, m);
    SearchStep(z, g, after, r);
    SearchStep(z, g, after, r + g.every);
    SearchStep(z, g, after, r + g.every + g.every);
    var next := if m < r then r else if m < r + g.every then r + g.every else r + g.every + g.every;
    if r < m {
      UtcSlotsIncrease(z, g, r, m);
    }
    if m < r + g.every {
      UtcSlotsIncrease(z, g, m, r + g.every);
    }
    if m < r {
      UtcSlotsIncrease(z, g, m, r);
    }
    UtcSlotsIncrease(z, g, m, r + g.every + g.every);
    assert NextRun(z, g, after) == SlotUtc(z, g, next);
    if next < m + g.every {
      UtcSlotsIncrease(z, g, next, m + g.every);
    }
  }

  /** The k-th run after the slot of month m is the slot of month m + k * every. */
  predicate OnCycle(z: Zone, g: Timing, first: Instant, m: nat, k: nat) {
    NthRun(z, g, first, k) == SlotUtc(z, g, Stepped(m, g.every, k))
  }

  ghost predicate RunsOnCycle(z: Zone, g: Timing, first: Instant, m: nat, k: nat) {
    forall j: nat :: j <= k ==> OnCycle(z, g, first, m, j)
  }

  /** The slot of month m + k * every reads back into its own month. */
  predicate KeepsCycleMonth(z: Zone, g: Timing, m: nat, k: nat) {
    KeepsMonth(z, g, Stepped(m, g.every, k))
  }

  ghost predicate MonthsKept(z: Zone, g: Timing, m: nat, k: nat) {
    forall j: nat :: j < k ==> KeepsCycleMonth(z, g, m, j)
  }

  /** Clamping never ratchets and nothing else makes the cycle drift, with one exception: the runs fed into each other
      stay on the slots of months m + j * every exactly when the schedule is monthly or every slot they pass reads
      back into its own month. */
  lemma {:induction false} RunsNeverDriftExactly(z: Zone, g: Timing, first: Instant, m: nat, k: nat)
    requires first == SlotUtc(z, g, m)
    ensures RunsOnCycle(z, g, first, m, k) <==> g.every == 1 || MonthsKept(z, g, m, k)
  {
    hide SlotUtc, OnCycle, KeepsCycleMonth;
    if k == 0 {
      NoRunYet(z, g, first, m);
    } else {
      RunsNeverDriftExactly(z, g, first, m, k - 1);
      assert RunsOnCycle(z, g, first, m, k) <==> RunsOnCycle(z, g, first, m, k - 1) && OnCycle(z, g, first, m, k);
      assert MonthsKept(z, g, m, k) <==> MonthsKept(z, g, m, k - 1) && KeepsCycleMonth(z, g, m, k - 1);
      hide RunsOnCycle, MonthsKept;
      if RunsOnCycle(z, g, first, m, k - 1) {
        OneMoreRun(z, g, first, m, k - 1);
      }
    }
  }

  lemma NoRunYet(z: Zone, g: Timing, first: Instant, m: nat)
    requires first == SlotUtc(z, g, m)
    ensures RunsOnCycle(z, g, first, m, 0) && MonthsKept(z, g, m, 0)
  {
    assert OnCycle(z, g, first, m, 0);
  }

  lemma OneMoreRun(z: Zone, g: Timing, first: Instant, m: nat, k: nat)
    requires RunsOnCycle(z, g, first, m, k)
    ensures OnCycle(z, g, first, m, k + 1) <==> g.every == 1 || KeepsCycleMonth(z, g, m, k)
  {
    hide SlotUtc, NextRun, KeepsMonth;
    assert OnCycle(z, g, first, m, k);
    StepKeptExactly(z, g, Stepped(m, g.every, k));
  }

  /** With one fixed offset day 31 returns after every short month: k runs after the slot of month m, local time is in
      month m + k * every, on the scheduled day or that month's last, at the scheduled time. */
  lemma FixedZoneRunsAreDated(z: Zone, g: Timing, first: Instant, m: nat, k: nat)
    requires exists offset :: z.Fixed(offset)
    requires first == SlotUtc(z, g, m)
    ensures var local := z.ToLocal(NthRun(z, g, first, k)); var month := m + k * g.every;
            && 0 <= local && MonthOf(local) == month
            && local / DAY - MonthStart(month) + 1 == Min(g.day, MonthStart(month + 1) - MonthStart(month))
            && local % DAY == g.time.hour * HOUR + g.time.minute * MINUTE
  {
    hide MonthOf, MonthStart, MonthLength, NthRun;
    forall j: nat | j < k
      ensures KeepsCycleMonth(z, g, m, j)
    {
      FixedZoneKeepsMonths(z, g, Stepped(m, g.every, j));
    }
    RunsNeverDriftExactly(z, g, first, m, k);
    assert OnCycle(z, g, first, m, k);
    var n := Stepped(m, g.every, k);
    var offset :| z.Fixed(offset);
    assert z.utcOffset(SlotUtc(z, g, n)) == offset && z.wallOffset(Slot(g, n)) == offset;
    assert z.ToLocal(SlotUtc(z, g, n)) == Slot(g, n);
    SlotDate(g, n);
  }

  // ----- runs that are started late

  lemma SlotsTellMonthsApart(z: Zone, g: Timing, m: nat, n: nat)
    ensures SlotUtc(z, g, m) < SlotUtc(z, g, n) <==> m < n
  {
    hide SlotUtc;
    if m < n {
      UtcSlotsIncrease(z, g, m, n);
    } else if n < m {
      UtcSlotsIncrease(z, g, n, m);
    }
  }

  lemma ProductIsNatural(x: nat, y: nat)
    ensures 0 <= x * y
  {
  }

  lemma MultiplesSpread(q: int, p: int, every: int)
    requires q < p && 0 <= every
    ensures q * every + every <= p * every
  {
    ProductIsNatural(p - q - 1, every);
    assert p * every == q * every + every + (p - q - 1) * every;
  }

  lemma DivisionIsUnique(q: int, r: int, p: int, s: int, every: int)
    requires q * every + r == p * every + s && 0 <= r < every && 0 <= s < every
    ensures q == p && r == s
  {
    if q < p {
      MultiplesSpread(q, p, every);
    } else if p < q {
      MultiplesSpread(p, q, every);
    }
  }

  lemma MultiplesDropOut(a: int, k: int, every: int)
    requires 1 <= every
    ensures (a + k * every) % every == a % every
  {
    var b := a + k * every;
    var q, p := a / every + k, b / every;
    assert q * every == (a / every) * every + k * every;
    DivisionIsUnique(q, a % every, p, b % every, every);
  }

  /** Steps of `every` months keep the distance from a month, up to whole steps. */
  lemma WholeStepsFrom(r: nat, m: nat, every: int, k: nat)
    requires 1 <= every
    ensures (Stepped(r, every, k) - m) % every == (r - m) % every
  {
    MultiplesDropOut(r - m, k, every);
  }

  lemma WholeSteps(m: nat, n: nat, every: int) returns (k: nat)
    requires 1 <= every && m <= n && (n - m) % every == 0
    ensures Stepped(m, every, k) == n
  {
    k := (n - m) / every;
    assert n - m == k * every;
  }

  /** The next run is computed from the time a slot is served, not from the slot. In every zone it stays on the months
      m, m + every, m + 2 every, ... of a slot already behind exactly when the month of serving, in local time, is a
      whole number of steps away from m. So a monthly schedule never leaves its cycle, and any other does when it is
      served in a month between two of its own. */
  lemma LateRunKeepsCycleExactly(z: Zone, g: Timing, after: Instant, m: nat)
    requires SlotUtc(z, g, m) <= after
    ensures (exists k: nat :: NextRun(z, g, after) == SlotUtc(z, g, Stepped(m, g.every, k)))
            <==> (MonthOf(z.ToLocal(after)) - m) % g.every == 0
  {
    hide SlotUtc, MonthOf, FirstSlotMonth, Stepped;
    var r := MonthOf(z.ToLocal(after));
    var j := FirstAhead(z, g, after, r, 0);
    var n := Stepped(r, g.every, j);
    assert NextRun(z, g, after) == SlotUtc(z, g, n);
    SlotsTellMonthsApart(z, g, m, n);
    WholeStepsFrom(r, m, g.every, j);
    if (n - m) % g.every == 0 {
      var k := WholeSteps(m, n, g.every);
    }
    if k: nat :| NextRun(z, g, after) == SlotUtc(z, g, Stepped(m, g.every, k)) {
      SlotsTellMonthsApart(z, g, n, Stepped(m, g.every, k));
      SlotsTellMonthsApart(z, g, Stepped(m, g.every, k), n);
      WholeStepsFrom(m, m, g.every, k);
    }
  }

  // ----- the end of the calendar

  lemma TwoYearsAtMost(m: nat, every: int, k: nat)
    requires 1 <= every <= 12 && k <= 2
    ensures Stepped(m, every, k) <= m + 24
  {
    if k == 2 {
      assert Stepped(m, every, 2) == Stepped(m, every, 1) + every;
    }
  }

  lemma SlotIsNear(z: Zone, g: Timing, after: int, m: nat, n: nat)
    requires 0 <= z.ToLocal(after) && m == MonthOf(z.ToLocal(after)) && m <= n <= m + 24
    ensures SlotUtc(z, g, n) < after + 777 * DAY
  {
    var wall := Slot(g, n);
    assert MonthStart(m) * DAY <= z.ToLocal(after);
    SlotInMonth(g, n);
    MonthStartsNear(m, n + 1);
    hide MonthOf, Slot, MonthStart;
    assert wall < (MonthStart(m) + 775) * DAY;
    assert -DAY < z.wallOffset(wall) < DAY && -DAY < z.utcOffset(after) < DAY;
  }

  /** The next run is at most some two years ahead. */
  lemma NextRunIsNear(z: Zone, g: Timing, after: Instant)
    requires g.every <= 12
    ensures NextRun(z, g, after) < after + 777 * DAY
  {
    hide MonthOf, SlotUtc, FirstSlotMonth, Stepped;
    var m := MonthOf(z.ToLocal(after));
    var k := FirstAhead(z, g, after, m, 0);
    TwoYearsAtMost(m, g.every, k);
    SlotIsNear(z, g, after, m, Stepped(m, g.every, k));
  }

  /** From no reading of the clock does the loop look at a month past year 9999, and no next run lies past it. */
  lemma StaysInTheCalendar(z: Zone, g: Timing, now: Clock, k: nat)
    requires g.every <= 12 && k <= 2
    ensures YearOf(Stepped(MonthOf(z.ToLocal(now)), g.every, k)) <= 9999 && NextRun(z, g, now) <= LAST
  {
    NextRunIsNear(z, g, now);
    var m := MonthOf(z.ToLocal(now));
    var n := Stepped(m, g.every, k);
    TwoYearsAtMost(m, g.every, k);
    EndOfCalendar();
    hide MonthStart, MonthOf, NextRun;
    assert -DAY < z.utcOffset(now) < DAY;
    MonthStartsNear(m, n);
    if 12 * LAST_YEAR <= n {
      MonthStartsSpread(12 * LAST_YEAR, n);
    }
  }

  const LAST_YEAR: nat := 9999

  lemma EndOfCalendar()
    ensures MonthStart(12 * LAST_YEAR) * DAY - 1 == LAST
  {
    YearStartClosedForm(LAST_YEAR);
  }
}
